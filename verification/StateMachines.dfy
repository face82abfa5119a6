/** The state machine behind the commit callback: it applies each command of the log to the table once. */
module StateMachines {
  import opened Bytes
  import opened Records
  import opened RaftCommands
  import opened RaftNode
  import opened RaftCluster
  import opened RaftTheorems
  import Tables

  /** What a command does to the rows: insertions of a key that is there, updates and deletions of one
      that is not, and unknown commands do nothing. */
  function Effect(rows: map<int, Record>, c: RaftCommand): map<int, Record> {
    if c.kind == INSERT then
      if c.id in rows then rows else rows[c.id := Normal(Record(c.id, c.name, c.value))]
    else if c.kind == UPDATE_VALUE then
      if c.id in rows then rows[c.id := Normal(rows[c.id].(value := c.value, id := c.id))] else rows
    else if c.kind == DELETE then rows - {c.id}
    else rows
  }

  /** `after` is `before` with the command carried out: only the row the command names may differ. An insertion
      adds the row unless there is one, an update changes the value of a row that is there and nothing else of
      it, a deletion leaves no row, and any other command does nothing. */
  ghost predicate CarriedOut(before: map<int, Record>, c: RaftCommand, after: map<int, Record>) {
    && (forall k :: k != c.id ==> (k in after <==> k in before) && (k in before ==> after[k] == before[k]))
    && (c.kind == INSERT && c.id !in before ==>
          c.id in after && StoredAs(Record(c.id, c.name, c.value), after[c.id]))
    && (c.kind == UPDATE_VALUE && c.id in before ==>
          c.id in after && after[c.id] == Record(c.id, before[c.id].name, c.value))
    && (c.kind == DELETE ==> c.id !in after)
    && (c.kind == INSERT && c.id in before ==> after == before)
    && (c.kind == UPDATE_VALUE && c.id !in before ==> after == before)
    && (c.kind !in [INSERT, UPDATE_VALUE, DELETE] ==> after == before)
  }

  lemma EffectIsCarriedOut(rows: map<int, Record>, c: RaftCommand)
    requires c.id in rows ==> StoredAs(rows[c.id], rows[c.id])
    ensures CarriedOut(rows, c, Effect(rows, c))
  {
    var given := Record(c.id, c.name, c.value);
    NormalIsKept(given, Normal(given));
    if c.id in rows {
      var changed := rows[c.id].(value := c.value, id := c.id);
      NormalIsKept(changed, changed);
    }
  }

  /** What the commands delivered do, one after the other. */
  function Effects(rows: map<int, Record>, delivered: seq<Delivery>): map<int, Record> {
    if delivered == [] then rows
    else
      var last := |delivered| - 1;
      Effect(Effects(rows, delivered[..last]), DecodeCommand(delivered[last].command))
  }

  lemma EffectsMore(rows: map<int, Record>, delivered: seq<Delivery>, i: int)
    requires 0 <= i < |delivered|
    ensures Effects(rows, delivered[..i + 1]) ==
            Effect(Effects(rows, delivered[..i]), DecodeCommand(delivered[i].command))
  {
    assert delivered[..i + 1][..i] == delivered[..i];
  }

  class StateMachine {
    const table: Tables.Table
    var lastApplied: int

    constructor (table: Tables.Table)
      ensures this.table == table && lastApplied == 0
    {
      this.table, lastApplied := table, 0;
    }

    /** Ignores an index it has passed already. */
    method Apply(command: Command, index: int)
      requires table.Valid() && IsInt64(table.wal.nextLsn) && IsInt64(table.wal.nextLsn + 1)
      modifies this, table`rows, table.index, table.index.pool, table.index.pool.disk, table.wal
      ensures table.Valid() && old(table.wal.nextLsn) <= table.wal.nextLsn <= old(table.wal.nextLsn) + 2
      ensures if index <= old(lastApplied) then lastApplied == old(lastApplied) && table.rows == old(table.rows)
              else lastApplied == index && table.rows == Effect(old(table.rows), DecodeCommand(command))
      ensures forall c {:trigger CommandBytes(c)} ::
                Fits(c) && command == CommandBytes(c) && index > old(lastApplied) ==>
                  CarriedOut(old(table.rows), c, table.rows)
      ensures old(table.LogGives(table.rows)) ==> table.LogGives(table.rows)
    {
      if index <= lastApplied {
        return;
      }
      forall c {:trigger CommandBytes(c)} | Fits(c) && command == CommandBytes(c) ensures DecodeCommand(command) == c {
        CommandRoundTrip(c);
      }
      var c := Deserialize(command);
      Execute(c);
      lastApplied := index;
    }

    method Execute(c: RaftCommand)
      requires Numbers(c)
      requires table.Valid() && IsInt64(table.wal.nextLsn) && IsInt64(table.wal.nextLsn + 1)
      modifies table`rows, table.index, table.index.pool, table.index.pool.disk, table.wal
      ensures table.Valid() && old(table.wal.nextLsn) <= table.wal.nextLsn <= old(table.wal.nextLsn) + 2
      ensures table.rows == Effect(old(table.rows), c) && CarriedOut(old(table.rows), c, table.rows)
      ensures old(table.LogGives(table.rows)) ==> table.LogGives(table.rows)
    {
      if c.id in table.rows {
        table.RowIsStored(c.id);
      }
      EffectIsCarriedOut(table.rows, c);
      if c.kind == INSERT {
        var ok := table.Insert(Record(c.id, c.name, c.value));
      } else if c.kind == UPDATE_VALUE {
        var ok := table.Update(c.id, (r: Record) => r.(value := c.value));
      } else if c.kind == DELETE {
        var ok := table.Delete(c.id);
      }
    }

    /** Fed the callbacks of a replica, it drops none of them. */
    method ApplyAll(delivered: seq<Delivery>)
      requires table.Valid() && IsInt64(table.wal.nextLsn) && IsInt64(table.wal.nextLsn + 2 * |delivered|)
      requires lastApplied == 0 && forall i :: 0 <= i < |delivered| ==> delivered[i].index == i + 1
      modifies this, table`rows, table.index, table.index.pool, table.index.pool.disk, table.wal
      ensures table.Valid() && lastApplied == |delivered| && table.rows == Effects(old(table.rows), delivered)
    {
      var i := 0;
      while i < |delivered|
        invariant 0 <= i <= |delivered| && table.Valid() && lastApplied == i
        invariant table.rows == Effects(old(table.rows), delivered[..i])
        invariant old(table.wal.nextLsn) <= table.wal.nextLsn <= old(table.wal.nextLsn) + 2 * i
      {
        EffectsMore(old(table.rows), delivered, i);
        Apply(delivered[i].command, delivered[i].index);
        i := i + 1;
      }
      assert delivered[..i] == delivered;
    }
  }

  /** Replicas that have applied equally many commands hold equal tables. */
  lemma ReplicasHoldEqualTables(cfg: Membership, run: seq<Action>, a: int, b: int, rows: map<int, Record>, n: nat)
    requires WellFormed(cfg) && Legal(cfg, run) && SameTermReplies(cfg, run) && UpToDateVotes(cfg, run)
    requires a in cfg && b in cfg
    ensures
      var nodes := After(cfg, run).c.nodes;
      && a in nodes && b in nodes
      && InOrder(nodes[a]) && InOrder(nodes[b])
      && (n <= |nodes[a].delivered| && n <= |nodes[b].delivered| ==>
            Effects(rows, nodes[a].delivered[..n]) == Effects(rows, nodes[b].delivered[..n]))
  {
    var nodes := After(cfg, run).c.nodes;
    InOrderHolds(cfg, run, a);
    InOrderHolds(cfg, run, b);
    if n <= |nodes[a].delivered| && n <= |nodes[b].delivered| {
      EqualDeliveries(cfg, run, a, b, nodes[a].delivered[..n], nodes[b].delivered[..n]);
    }
  }

  /** Two state machines on tables of their own. */
  ghost predicate Apart(left: StateMachine, right: StateMachine) {
    && left != right && left.table != right.table && left.table.index != right.table.index
    && left.table.index.pool != right.table.index.pool && left.table.index.pool.disk != right.table.index.pool.disk
    && left.table.wal != right.table.wal
  }

  /** Equally many callbacks of two replicas are the same callbacks. */
  lemma EqualDeliveries(cfg: Membership, run: seq<Action>, a: int, b: int, fromA: seq<Delivery>, fromB: seq<Delivery>)
    requires WellFormed(cfg) && Legal(cfg, run) && SameTermReplies(cfg, run) && UpToDateVotes(cfg, run)
    requires a in cfg && a in After(cfg, run).c.nodes && fromA <= After(cfg, run).c.nodes[a].delivered
    requires b in cfg && b in After(cfg, run).c.nodes && fromB <= After(cfg, run).c.nodes[b].delivered
    requires |fromA| == |fromB|
    ensures fromA == fromB && forall i :: 0 <= i < |fromA| ==> fromA[i].index == i + 1
  {
    InOrderHolds(cfg, run, a);
    forall i | 0 <= i < |fromA| ensures fromA[i] == fromB[i] && fromA[i].index == i + 1 {
      StateMachineSafety(cfg, run, a, b, i);
    }
  }

  /** Two tables that start equal, fed what two replicas of a run delivered, end equal. */
  method ApplyOnReplicas(ghost cfg: Membership, ghost run: seq<Action>, ghost a: int, ghost b: int,
                         left: StateMachine, right: StateMachine, toLeft: seq<Delivery>, toRight: seq<Delivery>)
    requires WellFormed(cfg) && Legal(cfg, run) && SameTermReplies(cfg, run) && UpToDateVotes(cfg, run)
    requires a in cfg && a in After(cfg, run).c.nodes && toLeft <= After(cfg, run).c.nodes[a].delivered
    requires b in cfg && b in After(cfg, run).c.nodes && toRight <= After(cfg, run).c.nodes[b].delivered
    requires Apart(left, right) && |toLeft| == |toRight|
    requires left.table.Valid() && left.lastApplied == 0
    requires IsInt64(left.table.wal.nextLsn) && IsInt64(left.table.wal.nextLsn + 2 * |toLeft|)
    requires right.table.Valid() && right.lastApplied == 0
    requires IsInt64(right.table.wal.nextLsn) && IsInt64(right.table.wal.nextLsn + 2 * |toRight|)
    requires left.table.rows == right.table.rows
    modifies left, left.table`rows, left.table.index, left.table.index.pool, left.table.index.pool.disk, left.table.wal
    modifies right, right.table`rows, right.table.index, right.table.index.pool, right.table.index.pool.disk,
      right.table.wal
    ensures left.table.Valid() && right.table.Valid() && left.table.rows == right.table.rows
    ensures left.table.rows == Effects(old(left.table.rows), toLeft)
    ensures left.lastApplied == right.lastApplied == |toLeft|
  {
    EqualDeliveries(cfg, run, a, b, toLeft, toRight);
    left.ApplyAll(toLeft);
    right.ApplyAll(toRight);
  }
}
