/** What the attention register promises, for every state it can be in. */
module AttentionFacts {
  import opened Wrappers
  import opened Identity
  import opened AgentStates
  import opened Orders
  import opened Attention

  // ---------------------------------------------------------------------
  // Items, count and holds say the same thing
  // ---------------------------------------------------------------------

  lemma RepeatCounts(items: seq<Item>, i: nat, j: nat)
    requires i < j < |items| && items[i] == items[j]
    ensures multiset(items)[items[i]] >= 2
  {
    assert items == items[..j] + items[j..];
    assert items[i] in items[..j] && items[j] in items[j..];
  }

  // THEOREM. Any listing of the items (the register's own is one) has as many
  // entries as the count, no identity twice, and an entry for a key exactly
  // when that key holds.
  lemma ItemsAreWhatHolds(agents: map<string, Pane>, union: Rows, items: seq<Item>)
    requires multiset(items) == multiset(AllItems(agents, union))
    ensures |items| == |BlockedPanes(agents)| + |union|
    ensures forall i, j :: 0 <= i < j < |items| ==> ItemIdentity(items[i]) != ItemIdentity(items[j])
    ensures forall key :: Holds(agents, union, key) <==>
      exists i :: 0 <= i < |items| && ItemIdentity(items[i]) == key
    ensures forall p :: Holds(agents, union, AgentKey(p)) <==>
      p in agents && agents[p].state in {BlockedModal, BlockedPermission, BlockedQuota}
    ensures forall k :: Holds(agents, union, DeliveryKey(k)) <==> k in union
  {
    ItemsSize(agents, union, items);
    ItemsDistinct(agents, union, items);
    forall key
      ensures Holds(agents, union, key) <==> exists i :: 0 <= i < |items| && ItemIdentity(items[i]) == key
    {
      ItemForKey(agents, union, items, key);
    }
  }

  lemma ItemForKey(agents: map<string, Pane>, union: Rows, items: seq<Item>, key: AttentionKey)
    requires multiset(items) == multiset(AllItems(agents, union))
    ensures Holds(agents, union, key) <==> exists i :: 0 <= i < |items| && ItemIdentity(items[i]) == key
  {
    MembersAgree(agents, union, items);
    if Holds(agents, union, key) {
      var item := if key.AgentKey? then PaneItem(agents, key.paneId) else RowItem(union, key.key);
      assert item in AllItems(agents, union);
      assert item in items && ItemIdentity(item) == key;
    }
    if i :| 0 <= i < |items| && ItemIdentity(items[i]) == key {
      assert items[i] in AllItems(agents, union);
    }
  }

  lemma ItemsDistinct(agents: map<string, Pane>, union: Rows, items: seq<Item>)
    requires multiset(items) == multiset(AllItems(agents, union))
    ensures forall i, j :: 0 <= i < j < |items| ==> ItemIdentity(items[i]) != ItemIdentity(items[j])
  {
    MembersAgree(agents, union, items);
    forall i, j | 0 <= i < j < |items|
      ensures ItemIdentity(items[i]) != ItemIdentity(items[j])
    {
      if items[i] == items[j] {
        RepeatCounts(items, i, j);
      }
      assert items[i] in items && items[j] in items;
    }
  }

  lemma MembersAgree(agents: map<string, Pane>, union: Rows, items: seq<Item>)
    requires multiset(items) == multiset(AllItems(agents, union))
    ensures forall item :: item in items <==> item in AllItems(agents, union)
  {
    forall item
      ensures item in items <==> item in AllItems(agents, union)
    {
      assert item in items <==> item in multiset(items);
      assert item in AllItems(agents, union) <==> item in multiset(AllItems(agents, union));
    }
  }

  // ---------------------------------------------------------------------
  // Exact recipients and legacy labels
  // ---------------------------------------------------------------------

  // THEOREM. An exact row of either half is never hidden or merged: it stands
  // in the union under its own key, the mailbox half's row winning.
  lemma ExactRowsStand(deliveries: Rows, mailbox: Rows, k: Key)
    requires k.who.Exact?
    ensures k in Union(deliveries, mailbox) <==> k in deliveries || k in mailbox
    ensures k in mailbox ==> Union(deliveries, mailbox)[k] == mailbox[k]
    ensures k in deliveries && k !in mailbox ==> Union(deliveries, mailbox)[k] == deliveries[k]
  {
  }

  lemma CarriersOfUnion(deliveries: Rows, mailbox: Rows, name: string, id: string)
    ensures Carriers(Union(deliveries, mailbox), name, id) == Carriers(Merged(deliveries, mailbox), name, id)
  {
    forall k
      ensures k in Carriers(Union(deliveries, mailbox), name, id) <==> k in Carriers(Merged(deliveries, mailbox), name, id)
    {
      if k.who.Exact? { ExactRowsStand(deliveries, mailbox, k); }
    }
  }

  // THEOREM. A legacy-label row of either half is visible exactly when the
  // exact rows of the union that carry its label and message are not one.
  lemma LegacyRowVisible(deliveries: Rows, mailbox: Rows, name: string, id: string)
    requires Key(LegacyLabel(name), id) in deliveries || Key(LegacyLabel(name), id) in mailbox
    ensures Key(LegacyLabel(name), id) in Union(deliveries, mailbox)
       <==> |Carriers(Union(deliveries, mailbox), name, id)| != 1
  {
    CarriersOfUnion(deliveries, mailbox, name, id);
  }

  // THEOREM. The same over the rows themselves: a legacy-label row is hidden
  // exactly when one exact row, and only one, carries its label for its message
  // in the mailbox half, or in the legacy half where the mailbox has none under
  // that key.
  lemma LegacyRowHiddenExactly(deliveries: Rows, mailbox: Rows, name: string, id: string)
    requires Key(LegacyLabel(name), id) in deliveries || Key(LegacyLabel(name), id) in mailbox
    ensures Key(LegacyLabel(name), id) !in Union(deliveries, mailbox) <==>
      exists r :: OnlyCarrier(deliveries, mailbox, r, name, id)
  {
    LegacyRowVisible(deliveries, mailbox, name, id);
    OneCarrier(deliveries, mailbox, name, id);
  }

  // The recipient's row shows this label for this message.
  ghost predicate Carries(deliveries: Rows, mailbox: Rows, r: RecipientKey, name: string, id: string) {
    var key := Key(Exact(r), id);
    if key in mailbox then mailbox[key].to == name else key in deliveries && deliveries[key].to == name
  }

  ghost predicate OnlyCarrier(deliveries: Rows, mailbox: Rows, r: RecipientKey, name: string, id: string) {
    && Carries(deliveries, mailbox, r, name, id)
    && forall s :: Carries(deliveries, mailbox, s, name, id) ==> s == r
  }

  lemma OneCarrier(deliveries: Rows, mailbox: Rows, name: string, id: string)
    ensures var carriers := Carriers(Union(deliveries, mailbox), name, id);
      && (|carriers| == 1 <==> exists r :: OnlyCarrier(deliveries, mailbox, r, name, id))
      && (forall r :: OnlyCarrier(deliveries, mailbox, r, name, id) ==> carriers == {Key(Exact(r), id)})
  {
    var carriers := Carriers(Union(deliveries, mailbox), name, id);
    CarriersOfUnion(deliveries, mailbox, name, id);
    forall r
      ensures Carries(deliveries, mailbox, r, name, id) <==> Key(Exact(r), id) in carriers
    {
    }
    forall r | OnlyCarrier(deliveries, mailbox, r, name, id)
      ensures carriers == {Key(Exact(r), id)}
    {
      forall k | k in carriers
        ensures k == Key(Exact(r), id)
      {
        assert Carries(deliveries, mailbox, k.who.key, name, id);
      }
    }
    if |carriers| == 1 {
      var k := TheOne(carriers);
      assert OnlyCarrier(deliveries, mailbox, k.who.key, name, id);
    }
  }

  // THEOREM. An edge that starts to need a human puts the row under the key it
  // resolves to, where it is then visible unless the mailbox has its own row for
  // that key; nothing else in the legacy half moves, and nothing is cleared.
  lemma EdgeRaises(r: Register, to: string, recipient: Option<RecipientKey>, id: Option<string>, state: DeliveryState)
    requires state in {AttentionRequired, ParkedBlockedQuota}
    ensures var (rows, cleared) := ObserveRows(r, to, recipient, id, state);
      var key := EdgeKey(r, to, recipient, id);
      && cleared == None && rows == r.deliveries[key := Row(to, state)]
      && key in Union(rows, r.mailbox)
      && Union(rows, r.mailbox)[key] == if key in r.mailbox then r.mailbox[key] else Row(to, state)
  {
    var key := EdgeKey(r, to, recipient, id);
    var rows := r.deliveries[key := Row(to, state)];
    if key.who.LegacyLabel? {
      BareLabelShows(r, to, key.id, Row(to, state));
    } else {
      ExactRowsStand(rows, r.mailbox, key);
    }
  }

  lemma BareLabelShows(r: Register, to: string, id: string, row: Row)
    requires forall s :: !OnlyCarrier(r.deliveries, r.mailbox, s, to, id)
    ensures var key := Key(LegacyLabel(to), id);
      var union := Union(r.deliveries[key := row], r.mailbox);
      key in union && union[key] == if key in r.mailbox then r.mailbox[key] else row
  {
    var key := Key(LegacyLabel(to), id);
    var rows := r.deliveries[key := row];
    OneCarrier(r.deliveries, r.mailbox, to, id);
    CarriersOfUnion(r.deliveries, r.mailbox, to, id);
    LegacyIsNoCarrier(r.deliveries, r.mailbox, key, row, to, id);
  }

  lemma LegacyIsNoCarrier(deliveries: Rows, mailbox: Rows, key: Key, row: Row, name: string, id: string)
    requires key.who.LegacyLabel?
    ensures Carriers(Merged(deliveries[key := row], mailbox), name, id) == Carriers(Merged(deliveries, mailbox), name, id)
  {
    var after, before := Merged(deliveries[key := row], mailbox), Merged(deliveries, mailbox);
    assert forall k: Key :: k.who.Exact? ==> (k in after <==> k in before) && (k in after ==> after[k] == before[k]);
  }

  // THEOREM. Any other edge takes that key out of the legacy half, and nothing
  // else, and reports the row it took out exactly when there was one.
  lemma EdgeClears(r: Register, to: string, recipient: Option<RecipientKey>, id: Option<string>, state: DeliveryState)
    requires state !in {AttentionRequired, ParkedBlockedQuota}
    ensures var (rows, cleared) := ObserveRows(r, to, recipient, id, state);
      var key := EdgeKey(r, to, recipient, id);
      && rows == r.deliveries - {key}
      && (key !in r.deliveries ==> cleared == None)
      && (key in r.deliveries ==>
            cleared == Some(Resolved(DeliveryItem(key, r.deliveries[key].to, r.deliveries[key].state), Moved)))
  {
  }

  // The key an edge is about: its recipient's, if it names one; otherwise the
  // one exact row shown under its label and message, or the bare label.
  ghost function EdgeKey(r: Register, to: string, recipient: Option<RecipientKey>, id: Option<string>): (key: Key)
    ensures key.id == match id case Some(m) => m case None => ""
    ensures recipient.Some? ==> key.who == Exact(recipient.value)
    ensures recipient == None && key.who.LegacyLabel? ==> key.who.name == to
    ensures recipient == None && key.who.Exact? ==>
      OnlyCarrier(r.deliveries, r.mailbox, key.who.key, to, key.id)
    ensures recipient == None && key.who.LegacyLabel? ==>
      forall s :: !OnlyCarrier(r.deliveries, r.mailbox, s, to, key.id)
  {
    var message := if id.Some? then id.value else "";
    EdgeResolves(r, to, message);
    Resolve(Union(r.deliveries, r.mailbox), recipient, to, message)
  }

  lemma EdgeResolves(r: Register, to: string, id: string)
    ensures var key := Resolve(Union(r.deliveries, r.mailbox), None, to, id);
      && key.id == id && (key.who.LegacyLabel? ==> key.who.name == to)
      && (key.who.Exact? ==> OnlyCarrier(r.deliveries, r.mailbox, key.who.key, to, id))
      && (key.who.LegacyLabel? ==> forall s :: !OnlyCarrier(r.deliveries, r.mailbox, s, to, id))
  {
    OneCarrier(r.deliveries, r.mailbox, to, id);
    ResolvedLabel(Union(r.deliveries, r.mailbox), None, to, id);
    if |Carriers(Union(r.deliveries, r.mailbox), to, id)| == 1 {
      var s :| OnlyCarrier(r.deliveries, r.mailbox, s, to, id);
      assert TheOne(Carriers(Union(r.deliveries, r.mailbox), to, id)) in {Key(Exact(s), id)};
    }
  }

  // THEOREM. A label reference to any open legacy row resolves to a key that
  // holds, and a reference never lands on an exact row unless it is the only
  // one carrying the label.
  lemma LabelReferenceHolds(deliveries: Rows, mailbox: Rows, name: string, id: string)
    ensures var union := Union(deliveries, mailbox);
      var key := Resolve(union, None, name, id);
      && (Key(LegacyLabel(name), id) in deliveries || Key(LegacyLabel(name), id) in mailbox ==> key in union)
      && (key.who.Exact? <==> |Carriers(union, name, id)| == 1)
      && (key.who.Exact? ==> Carriers(union, name, id) == {key})
  {
    var union := Union(deliveries, mailbox);
    if Key(LegacyLabel(name), id) in deliveries || Key(LegacyLabel(name), id) in mailbox {
      LegacyRowVisible(deliveries, mailbox, name, id);
    }
    if |Carriers(union, name, id)| == 1 {
      assert TheOne(Carriers(union, name, id)) in Carriers(union, name, id);
    }
  }

  // THEOREM. A label-only clearance whose label no exact row, or more than
  // one, carries leaves every exact row of the union as it was.
  lemma AmbiguousClearanceKeepsExact(r: Register, to: string, id: string, state: DeliveryState, k: Key)
    requires !NeedsHuman(state) && k.who.Exact?
    requires |Carriers(Union(r.deliveries, r.mailbox), to, id)| != 1
    ensures var (rows, _) := ObserveRows(r, to, None, Some(id), state);
      && (k in Union(rows, r.mailbox) <==> k in Union(r.deliveries, r.mailbox))
      && (k in Union(rows, r.mailbox) ==> Union(rows, r.mailbox)[k] == Union(r.deliveries, r.mailbox)[k])
  {
    var (rows, _) := ObserveRows(r, to, None, Some(id), state);
    ExactRowsStand(r.deliveries, r.mailbox, k);
    ExactRowsStand(rows, r.mailbox, k);
  }

  // A clearance need not lower the count. The mailbox half still holds the
  // key: nothing visible changes.
  lemma MailboxRowOutlivesClearance(deliveries: Rows, mailbox: Rows, k: Key)
    requires k in mailbox
    ensures Union(deliveries - {k}, mailbox) == Union(deliveries, mailbox)
  {
    assert Merged(deliveries - {k}, mailbox) == Merged(deliveries, mailbox);
  }

  // Or the cleared exact row was hiding its legacy twin, which resurfaces.
  lemma TwinResurfaces(deliveries: Rows, mailbox: Rows, k: Key)
    requires k in deliveries && k !in mailbox && k.who.Exact?
    requires Key(LegacyLabel(deliveries[k].to), k.id) in deliveries
    requires Carriers(Merged(deliveries, mailbox), deliveries[k].to, k.id) == {k}
    ensures var twin := Key(LegacyLabel(deliveries[k].to), k.id);
      && twin !in Union(deliveries, mailbox)
      && twin in Union(deliveries - {k}, mailbox)
      && k !in Union(deliveries - {k}, mailbox)
  {
    CarriersWithout(deliveries, mailbox, k, deliveries[k].to, k.id);
  }

  lemma CarriersWithout(deliveries: Rows, mailbox: Rows, k: Key, name: string, id: string)
    requires k !in mailbox
    ensures Carriers(Merged(deliveries - {k}, mailbox), name, id) == Carriers(Merged(deliveries, mailbox), name, id) - {k}
  {
    var after, before := Merged(deliveries - {k}, mailbox), Merged(deliveries, mailbox);
    assert forall j :: j in after <==> j in before && j != k;
    assert forall j :: j in after ==> after[j] == before[j];
  }

  // ---------------------------------------------------------------------
  // Mailbox snapshots
  // ---------------------------------------------------------------------

  // The keys a snapshot omits.
  ghost function Omitted(mailbox: Rows, next: Rows): set<Key> {
    mailbox.Keys - next.Keys
  }

  // No other exact row of the mailbox half or of `deliveries` carries the
  // label of `k`'s mailbox row for its message.
  ghost predicate SoleCarrier(deliveries: Rows, mailbox: Rows, k: Key)
    requires k in mailbox
  {
    && k.who.Exact?
    && (forall j :: j in mailbox && j.who.Exact? && j != k && j.id == k.id ==> mailbox[j].to != mailbox[k].to)
    && (forall j :: j in deliveries && j.who.Exact? && j != k && j.id == k.id ==> deliveries[j].to != mailbox[k].to)
  }

  ghost predicate EndsTwin(deliveries: Rows, mailbox: Rows, next: Rows, j: Key) {
    exists k :: k in Omitted(mailbox, next) && SoleCarrier(deliveries, mailbox, k)
             && j == Key(LegacyLabel(mailbox[k].to), k.id)
  }

  ghost function Visited(mailbox: Rows, next: Rows, order: seq<Key>): set<Key> {
    set k | k in Omitted(mailbox, next) && k in order
  }

  lemma SoleCarrierMonotone(more: Rows, fewer: Rows, mailbox: Rows, k: Key)
    requires k in mailbox
    requires forall j :: j in fewer ==> j in more && more[j] == fewer[j]
    requires SoleCarrier(more, mailbox, k)
    ensures SoleCarrier(fewer, mailbox, k)
  {
  }

  // The twin that goes when the walk meets `order[i]`: by then the omitted rows
  // visited earlier carry nothing.
  ghost predicate TakesTwin(deliveries: Rows, mailbox: Rows, next: Rows, order: seq<Key>, i: int) {
    && 0 <= i < |order| && order[i] in Omitted(mailbox, next)
    && SoleCarrier(deliveries - Visited(mailbox, next, order[..i]), mailbox, order[i])
  }

  ghost predicate TwinTaken(deliveries: Rows, mailbox: Rows, next: Rows, order: seq<Key>, j: Key) {
    exists i :: TakesTwin(deliveries, mailbox, next, order, i) && j == Twin(mailbox, order[i])
  }

  // The rows a walk leaves, in closed form.
  ghost predicate Leaves(deliveries: Rows, mailbox: Rows, next: Rows, order: seq<Key>, rows: Rows) {
    && (forall j :: j in rows <==>
          j in deliveries && j !in Visited(mailbox, next, order) && !TwinTaken(deliveries, mailbox, next, order, j))
    && (forall j :: j in rows ==> rows[j] == deliveries[j])
  }

  // Looking at a longer walk does not change what happened earlier.
  lemma TwinTakenSnoc(deliveries: Rows, mailbox: Rows, next: Rows, front: seq<Key>, k: Key, j: Key)
    requires k in mailbox
    ensures TwinTaken(deliveries, mailbox, next, front + [k], j) <==>
      || TwinTaken(deliveries, mailbox, next, front, j)
      || (k in Omitted(mailbox, next) && SoleCarrier(deliveries - Visited(mailbox, next, front), mailbox, k)
          && j == Twin(mailbox, k))
  {
    var order := front + [k];
    assert order[..|front|] == front && order[|front|] == k;
    assert forall i :: 0 <= i < |front| ==> order[i] == front[i] && order[..i] == front[..i];
    assert forall i :: i < |front| ==>
      (TakesTwin(deliveries, mailbox, next, order, i) <==> TakesTwin(deliveries, mailbox, next, front, i));
    if TwinTaken(deliveries, mailbox, next, front, j) {
      var i :| TakesTwin(deliveries, mailbox, next, front, i) && j == Twin(mailbox, front[i]);
      assert TakesTwin(deliveries, mailbox, next, order, i);
    }
    if k in Omitted(mailbox, next) && SoleCarrier(deliveries - Visited(mailbox, next, front), mailbox, k) {
      assert TakesTwin(deliveries, mailbox, next, order, |front|);
    }
  }

  // Only exact rows count as carriers, and the walk has ended no exact row but
  // the omitted ones it visited.
  lemma CarriersOnTheWay(deliveries: Rows, mailbox: Rows, next: Rows, front: seq<Key>, before: Rows, k: Key)
    requires k in mailbox && Leaves(deliveries, mailbox, next, front, before)
    ensures SoleCarrier(before - {k}, mailbox, k) <==>
      SoleCarrier(deliveries - Visited(mailbox, next, front), mailbox, k)
  {
    var kept := deliveries - Visited(mailbox, next, front);
    assert forall j: Key :: j.who.Exact? && j.who != k.who ==> (j in before - {k} <==> j in kept);
    assert forall j :: j in before - {k} ==> (before - {k})[j] == kept[j];
  }

  lemma {:induction false} WalkExact(deliveries: Rows, mailbox: Rows, next: Rows, order: seq<Key>)
    requires forall i :: 0 <= i < |order| ==> order[i] in mailbox
    ensures Leaves(deliveries, mailbox, next, order, EndOmitted(deliveries, mailbox, next, order))
    decreases |order|
  {
    if order != [] {
      var front, k := order[..|order| - 1], order[|order| - 1];
      assert order == front + [k];
      WalkExact(deliveries, mailbox, next, front);
      WalkStep(deliveries, mailbox, next, front, k, EndOmitted(deliveries, mailbox, next, front));
    }
  }

  lemma WalkStep(deliveries: Rows, mailbox: Rows, next: Rows, front: seq<Key>, k: Key, before: Rows)
    requires k in mailbox && Leaves(deliveries, mailbox, next, front, before)
    ensures Leaves(deliveries, mailbox, next, front + [k], if k in next then before else EndOne(before, mailbox, k))
  {
    CarriersOnTheWay(deliveries, mailbox, next, front, before, k);
    assert Visited(mailbox, next, front + [k]) == Visited(mailbox, next, front) + if k in next then {} else {k};
    forall j
      ensures TwinTaken(deliveries, mailbox, next, front + [k], j) <==>
        || TwinTaken(deliveries, mailbox, next, front, j)
        || (k !in next && SoleCarrier(before - {k}, mailbox, k) && j == Twin(mailbox, k))
    {
      TwinTakenSnoc(deliveries, mailbox, next, front, k, j);
    }
  }

  // `order` visits every row once.
  ghost predicate Visits(order: seq<Key>, rows: Rows) {
    && (forall k :: k in order <==> k in rows)
    && (forall i, j :: 0 <= i < j < |order| ==> order[i] != order[j])
  }

  // THEOREM. A mailbox snapshot, whatever the iteration order: an omitted key
  // ends in the legacy half, its twin ends with it when no other exact row of
  // either half carries that label and message, surviving rows are untouched,
  // and a row that ends was an omitted key or the twin of one that no other
  // remaining exact row carries.
  lemma SnapshotEndsOmitted(deliveries: Rows, mailbox: Rows, next: Rows, order: seq<Key>)
    requires Visits(order, mailbox)
    ensures var rows := EndOmitted(deliveries, mailbox, next, order);
      && (forall j :: j in rows ==> j in deliveries && rows[j] == deliveries[j])
      && (forall k :: k in Omitted(mailbox, next) ==> k !in rows && k !in Union(rows, next))
      && (forall j :: EndsTwin(deliveries, mailbox, next, j) ==> j !in rows)
      && (forall j :: j in deliveries && j !in rows ==>
            j in Omitted(mailbox, next) || EndsTwin(deliveries - Omitted(mailbox, next), mailbox, next, j))
  {
    WalkExact(deliveries, mailbox, next, order);
    assert Visited(mailbox, next, order) == Omitted(mailbox, next);
    forall j
      ensures EndsTwin(deliveries, mailbox, next, j) ==> TwinTaken(deliveries, mailbox, next, order, j)
      ensures TwinTaken(deliveries, mailbox, next, order, j) ==>
        EndsTwin(deliveries - Omitted(mailbox, next), mailbox, next, j)
    {
      TwinBounds(deliveries, mailbox, next, order, j);
    }
  }

  lemma TwinBounds(deliveries: Rows, mailbox: Rows, next: Rows, order: seq<Key>, j: Key)
    requires Visits(order, mailbox)
    ensures EndsTwin(deliveries, mailbox, next, j) ==> TwinTaken(deliveries, mailbox, next, order, j)
    ensures TwinTaken(deliveries, mailbox, next, order, j) ==>
      EndsTwin(deliveries - Omitted(mailbox, next), mailbox, next, j)
  {
    if EndsTwin(deliveries, mailbox, next, j) {
      var k :| k in Omitted(mailbox, next) && SoleCarrier(deliveries, mailbox, k) && j == Twin(mailbox, k);
      assert k in order;
      var i :| 0 <= i < |order| && order[i] == k;
      SoleCarrierMonotone(deliveries, deliveries - Visited(mailbox, next, order[..i]), mailbox, k);
      assert TakesTwin(deliveries, mailbox, next, order, i);
    }
    if TwinTaken(deliveries, mailbox, next, order, j) {
      var i :| TakesTwin(deliveries, mailbox, next, order, i) && j == Twin(mailbox, order[i]);
      SoleCarrierMonotone(deliveries - Visited(mailbox, next, order[..i]), deliveries - Omitted(mailbox, next),
                          mailbox, order[i]);
    }
  }

  // Exactly the omitted keys and the twins of sole carriers end.
  ghost predicate EndsAsPromised(deliveries: Rows, mailbox: Rows, next: Rows, rows: Rows) {
    forall j :: j in deliveries ==>
      (j in rows <==> j !in Omitted(mailbox, next) && !EndsTwin(deliveries, mailbox, next, j))
  }

  // The twin of an omitted key is there and is not itself omitted.
  ghost predicate TwinStands(deliveries: Rows, mailbox: Rows, next: Rows, k: Key)
    requires k in mailbox
  {
    var twin := Key(LegacyLabel(mailbox[k].to), k.id);
    twin in deliveries && twin !in Omitted(mailbox, next)
  }

  // No key of the walk takes a standing twin without being a sole carrier from
  // the start.
  ghost predicate Uncontested(deliveries: Rows, mailbox: Rows, next: Rows, order: seq<Key>) {
    forall i :: TakesTwin(deliveries, mailbox, next, order, i) && TwinStands(deliveries, mailbox, next, order[i]) ==>
      SoleCarrier(deliveries, mailbox, order[i])
  }

  // Two keys with one twin carry the same label, so neither is a sole carrier.
  lemma TwinNamesItsCarrier(deliveries: Rows, mailbox: Rows, next: Rows, k: Key)
    requires k in Omitted(mailbox, next) && k.who.Exact? && EndsTwin(deliveries, mailbox, next, Twin(mailbox, k))
    ensures SoleCarrier(deliveries, mailbox, k)
  {
    var i :| i in Omitted(mailbox, next) && SoleCarrier(deliveries, mailbox, i)
          && Twin(mailbox, k) == Key(LegacyLabel(mailbox[i].to), i.id);
    assert Twin(mailbox, k).who.name == mailbox[k].to == mailbox[i].to && k.id == i.id;
    assert i == k;
  }

  // THEOREM. A walk in a given order ends exactly the omitted keys and the
  // twins of sole carriers if and only if no twin is contested in that order.
  lemma SnapshotExact(deliveries: Rows, mailbox: Rows, next: Rows, order: seq<Key>)
    requires Visits(order, mailbox)
    ensures EndsAsPromised(deliveries, mailbox, next, EndOmitted(deliveries, mailbox, next, order)) <==>
      Uncontested(deliveries, mailbox, next, order)
  {
    var rows := EndOmitted(deliveries, mailbox, next, order);
    WalkExact(deliveries, mailbox, next, order);
    assert Visited(mailbox, next, order) == Omitted(mailbox, next);
    if EndsAsPromised(deliveries, mailbox, next, rows) {
      forall i | TakesTwin(deliveries, mailbox, next, order, i) && TwinStands(deliveries, mailbox, next, order[i])
        ensures SoleCarrier(deliveries, mailbox, order[i])
      {
        assert TwinTaken(deliveries, mailbox, next, order, Twin(mailbox, order[i]));
        TwinNamesItsCarrier(deliveries, mailbox, next, order[i]);
      }
    }
    if Uncontested(deliveries, mailbox, next, order) {
      forall j | j in deliveries
        ensures j in rows <==> j !in Omitted(mailbox, next) && !EndsTwin(deliveries, mailbox, next, j)
      {
        TwinBounds(deliveries, mailbox, next, order, j);
      }
    }
  }

  // The omitted keys the map holds before `k`.
  ghost function OmittedBefore(mailbox: Rows, next: Rows, k: Key): set<Key> {
    set j | j in Omitted(mailbox, next) && KeyLess(j, k)
  }

  // The same in the order of the keys: an omitted key whose twin stands is a
  // sole carrier from the start, or is not one even with the omitted rows
  // before it gone.
  ghost predicate UncontestedByKey(deliveries: Rows, mailbox: Rows, next: Rows) {
    forall k | k in Omitted(mailbox, next) && TwinStands(deliveries, mailbox, next, k) ::
      SoleCarrier(deliveries - OmittedBefore(mailbox, next, k), mailbox, k) ==> SoleCarrier(deliveries, mailbox, k)
  }

  lemma SortedVisits(mailbox: Rows)
    ensures Visits(SortedKeys(mailbox.Keys), mailbox)
  {
    AscendingDistinct(SortedKeys(mailbox.Keys));
  }

  lemma VisitedBefore(mailbox: Rows, next: Rows, i: nat)
    requires i < |SortedKeys(mailbox.Keys)|
    ensures var order := SortedKeys(mailbox.Keys);
      Visited(mailbox, next, order[..i]) == OmittedBefore(mailbox, next, order[i])
  {
    var order := SortedKeys(mailbox.Keys);
    forall j | j in Omitted(mailbox, next)
      ensures j in order[..i] <==> KeyLess(j, order[i])
    {
      assert j in order;
      var n :| 0 <= n < |order| && order[n] == j;
      KeyTotal(j, order[i]);
      if n < i {
        assert order[..i][n] == j;
      } else {
        assert n == i || KeyLess(order[i], order[n]);
      }
    }
  }

  // THEOREM. The snapshot the code takes, which walks the previous half in key
  // order, ends exactly the omitted keys and the twins of sole carriers if and
  // only if no twin is contested in that order.
  lemma SnapshotByKey(deliveries: Rows, mailbox: Rows, next: Rows)
    ensures EndsAsPromised(deliveries, mailbox, next, Ended(deliveries, mailbox, next)) <==>
      UncontestedByKey(deliveries, mailbox, next)
  {
    var order := SortedKeys(mailbox.Keys);
    SortedVisits(mailbox);
    SnapshotExact(deliveries, mailbox, next, order);
    forall i: nat | i < |order|
      ensures Visited(mailbox, next, order[..i]) == OmittedBefore(mailbox, next, order[i])
    {
      VisitedBefore(mailbox, next, i);
    }
    if Uncontested(deliveries, mailbox, next, order) {
      forall k | k in Omitted(mailbox, next) && TwinStands(deliveries, mailbox, next, k)
              && SoleCarrier(deliveries - OmittedBefore(mailbox, next, k), mailbox, k)
        ensures SoleCarrier(deliveries, mailbox, k)
      {
        assert k in order;
        var i :| 0 <= i < |order| && order[i] == k;
        assert TakesTwin(deliveries, mailbox, next, order, i);
      }
    }
  }

  // The omitted rows the two halves share carry the same label in both.
  ghost predicate LabelsAgree(deliveries: Rows, mailbox: Rows, next: Rows) {
    forall k :: k in Omitted(mailbox, next) && k in deliveries && k.who.Exact? ==> deliveries[k].to == mailbox[k].to
  }

  // Agreement on labels is enough.
  lemma AgreementIsUncontested(deliveries: Rows, mailbox: Rows, next: Rows)
    requires LabelsAgree(deliveries, mailbox, next)
    ensures UncontestedByKey(deliveries, mailbox, next)
  {
    forall k | k in Omitted(mailbox, next) && SoleCarrier(deliveries - OmittedBefore(mailbox, next, k), mailbox, k)
      ensures SoleCarrier(deliveries, mailbox, k)
    {
      var kept := deliveries - OmittedBefore(mailbox, next, k);
      forall i | i in deliveries && i.who.Exact? && i.who != k.who && i.id == k.id
        ensures deliveries[i].to != mailbox[k].to
      {
        if i in Omitted(mailbox, next) {
          assert mailbox[i].to == deliveries[i].to;
        } else {
          assert i in kept;
        }
      }
    }
  }

  // A register with a contested twin: `b`'s row shows the label of `a`'s in the
  // legacy half and another one in the mailbox half, and a snapshot omits both.
  ghost function Contested(a: RecipientKey, b: RecipientKey): (Rows, Rows) {
    var row := Row("x", AttentionRequired);
    (map[Key(Exact(b), "m") := row, Key(LegacyLabel("x"), "m") := row],
     map[Key(Exact(a), "m") := row, Key(Exact(b), "m") := Row("y", AttentionRequired)])
  }

  // The code keeps its promise on it exactly when `a` sorts before `b`:
  // otherwise `b`'s row is gone by the time `a`'s twin is judged.
  lemma ContestedByOrder(a: RecipientKey, b: RecipientKey)
    requires a != b
    ensures var (deliveries, mailbox) := Contested(a, b);
      EndsAsPromised(deliveries, mailbox, map[], Ended(deliveries, mailbox, map[])) <==> RecipientLess(a, b)
  {
    var (deliveries, mailbox) := Contested(a, b);
    var ka, kb := Key(Exact(a), "m"), Key(Exact(b), "m");
    SnapshotByKey(deliveries, mailbox, map[]);
    RecipientTotal(a, b);
    ContestedTwins(a, b);
    ContestedCarrier(a, b);
    assert forall k :: k in Omitted(mailbox, map[]) ==> k == ka || k == kb;
  }

  // Only the first recipient's twin is there to contest.
  lemma ContestedTwins(a: RecipientKey, b: RecipientKey)
    requires a != b
    ensures var (deliveries, mailbox) := Contested(a, b);
      && TwinStands(deliveries, mailbox, map[], Key(Exact(a), "m"))
      && !TwinStands(deliveries, mailbox, map[], Key(Exact(b), "m"))
  {
    assert "x"[0] == 'x' && "y"[0] == 'y';
  }

  // That recipient carries the label alone exactly when the other has gone.
  lemma ContestedCarrier(a: RecipientKey, b: RecipientKey)
    requires a != b
    ensures var (deliveries, mailbox) := Contested(a, b);
      var ka := Key(Exact(a), "m");
      && !SoleCarrier(deliveries, mailbox, ka)
      && (SoleCarrier(deliveries - OmittedBefore(mailbox, map[], ka), mailbox, ka) <==> RecipientLess(b, a))
  {
    var (deliveries, mailbox) := Contested(a, b);
    var ka, kb := Key(Exact(a), "m"), Key(Exact(b), "m");
    assert "x"[0] == 'x' && "y"[0] == 'y';
    assert kb in deliveries && deliveries[kb].to == mailbox[ka].to;
    assert KeyLess(kb, ka) <==> RecipientLess(b, a);
    assert kb in deliveries - OmittedBefore(mailbox, map[], ka) <==> !RecipientLess(b, a);
  }
}
