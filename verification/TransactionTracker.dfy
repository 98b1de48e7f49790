/** Duplicate suppression for RPC calls.

    The tracker is a table behind a lock; a call is executed only if its (xid, client) is not in the
    table.  Around it runs a concurrent protocol: any number of tasks arrive, execute, read the clock
    and only then take the lock to record completion, in any interleaving. */
module TransactionTracker {
  import opened Bytes

  datatype Key = Key(xid: nat, client: string)

  datatype TxState = InProgress | Completed(at: int)

  // ---------------------------------------------------------------- the tracker

  predicate Keeps(tx: TxState, now: int, retention: nat) {
    tx.Completed? ==> tx.at >= now - retention
  }

  /** The table without the entries that completed before the retention period. */
  function Retained(table: map<Key, TxState>, now: int, retention: nat): map<Key, TxState> {
    map k | k in table && Keeps(table[k], now, retention) :: table[k]
  }

  class Tracker {
    const retention: nat
    var transactions: map<Key, TxState>

    constructor (retention: nat)
      ensures this.retention == retention && transactions == map[]
    {
      this.retention := retention;
      transactions := map[];
    }

    /** Drop, one entry after another, what completed before the cutoff. */
    method Housekeeping(now: int)
      modifies this
      ensures transactions == Retained(old(transactions), now, retention)
    {
      var todo := transactions.Keys;
      var cutoff := now - retention;
      while todo != {}
        invariant forall k :: k in transactions <==> k in old(transactions) && (k in todo || Keeps(old(transactions)[k], now, retention))
        invariant forall k <- transactions :: transactions[k] == old(transactions)[k]
        invariant todo <= transactions.Keys
        decreases todo
      {
        var k :| k in todo;
        todo := todo - {k};
        if transactions[k].Completed? && transactions[k].at < cutoff {
          transactions := transactions - {k};
        }
      }
    }

    /** True for a retransmission; otherwise the call is entered as in progress. */
    method IsRetransmission(key: Key, now: int) returns (again: bool)
      modifies this
      ensures var kept := Retained(old(transactions), now, retention);
        && (again <==> key in kept)
        && transactions == if again then kept else kept[key := InProgress]
    {
      Housekeeping(now);
      if key !in transactions {
        transactions := transactions[key := InProgress];
        again := false;
      } else {
        again := true;
      }
    }

    method MarkProcessed(key: Key, completionTime: int)
      modifies this
      ensures transactions == Marked(old(transactions), key, completionTime)
    {
      if key in transactions {
        transactions := transactions[key := Completed(completionTime)];
      }
    }
  }

  /** What marking is for: the call is recognised as a retransmission until the retention period after its
      completion is over, and not afterwards. */
  lemma MarkedIsRemembered(table: map<Key, TxState>, key: Key, at: int, now: int, retention: nat)
    ensures key in Retained(Marked(table, key, at), now, retention) <==> key in table && now - at <= retention
    ensures forall other | other != key ::
      other in Retained(Marked(table, key, at), now, retention) <==> other in Retained(table, now, retention)
  {
  }

  function Marked(table: map<Key, TxState>, key: Key, at: int): map<Key, TxState> {
    if key in table then table[key := Completed(at)] else table
  }

  // ---------------------------------------------------------------- the protocol

  /** A task executing a call: still running, or done and waiting to record that. */
  datatype Handler = Running(key: Key) | Stamped(key: Key, at: int)

  /** What happened: an execution started, finished, or was abandoned without being recorded. */
  datatype Event = Started(key: Key, at: int) | Finished(key: Key, at: int) | Abandoned(key: Key)

  datatype Step =
    | Tick(elapsed: nat)
    | Arrive(task: nat, key: Key)
    | Stamp(task: nat)
    | Mark(task: nat)
    | Abandon(task: nat)

  datatype Sys = Sys(table: map<Key, TxState>, clock: int, handlers: map<nat, Handler>, log: seq<Event>) {
    /** One step of one task, or of time.  A step that is not enabled changes nothing. */
    function Next(s: Step, retention: nat): Sys {
      match s
      case Tick(d) => this.(clock := clock + d)
      case Arrive(t, key) =>
        if t in handlers then this
        else
          var kept := Retained(table, clock, retention);
          if key in kept then this.(table := kept)
          else Sys(kept[key := InProgress], clock, handlers[t := Running(key)], log + [Started(key, clock)])
      case Stamp(t) =>
        if t in handlers && handlers[t].Running?
        then this.(handlers := handlers[t := Stamped(handlers[t].key, clock)], log := log + [Finished(handlers[t].key, clock)])
        else this
      case Mark(t) =>
        if t in handlers && handlers[t].Stamped?
        then this.(table := Marked(table, handlers[t].key, handlers[t].at), handlers := handlers - {t})
        else this
      case Abandon(t) =>
        if t in handlers
        then this.(handlers := handlers - {t}, log := log + [Abandoned(handlers[t].key)])
        else this
    }
  }

  function Init(clock: int): Sys { Sys(map[], clock, map[], []) }

  function Run(s: Sys, steps: seq<Step>, retention: nat): Sys {
    if steps == [] then s else Run(s, steps[..|steps| - 1], retention).Next(steps[|steps| - 1], retention)
  }

  /** The latest event about a key. */
  ghost function LastOf(log: seq<Event>, key: Key): Option<Event> {
    if log == [] then None
    else if log[|log| - 1].key == key then Some(log[|log| - 1])
    else LastOf(log[..|log| - 1], key)
  }

  /** The key is finished and its retention period is over. */
  ghost predicate Expired(last: Option<Event>, now: int, retention: nat) {
    last.None? || (last.value.Finished? && now - last.value.at > retention)
  }

  ghost predicate Busy(s: Sys, key: Key) {
    exists t <- s.handlers :: s.handlers[t].key == key
  }

  /** Every execution started only when the latest event about its key had expired. */
  ghost predicate SpacedOut(log: seq<Event>, retention: nat) {
    forall j | 0 <= j < |log| && log[j].Started? :: Expired(LastOf(log[..j], log[j].key), log[j].at, retention)
  }

  ghost predicate TableMatches(s: Sys, key: Key, retention: nat) {
    var last := LastOf(s.log, key);
    if key !in s.table then Expired(last, s.clock, retention)
    else match s.table[key]
      case InProgress => last.Some?
      case Completed(at) => last == Some(Finished(key, at)) && at <= s.clock
  }

  ghost predicate HandlerMatches(s: Sys, t: nat)
    requires t in s.handlers
  {
    var h := s.handlers[t];
    && h.key in s.table && s.table[h.key] == InProgress
    && match h
       case Running(key) => LastOf(s.log, key).Some? && LastOf(s.log, key).value.Started?
       case Stamped(key, at) => LastOf(s.log, key) == Some(Finished(key, at)) && at <= s.clock
  }

  /** In progress without a handler: that is what an abandoned execution leaves behind. */
  ghost predicate OrphanMatches(s: Sys, key: Key) {
    key in s.table && s.table[key] == InProgress && !Busy(s, key) ==> LastOf(s.log, key) == Some(Abandoned(key))
  }

  ghost predicate OnePerKey(s: Sys) {
    forall t <- s.handlers, u <- s.handlers | t != u :: s.handlers[t].key != s.handlers[u].key
  }

  ghost predicate Inv(s: Sys, retention: nat) {
    && OnePerKey(s)
    && (forall t <- s.handlers :: HandlerMatches(s, t))
    && (forall key :: TableMatches(s, key, retention))
    && (forall key :: OrphanMatches(s, key))
    && SpacedOut(s.log, retention)
  }

  // ---------------------------------------------------------------- every step keeps it

  lemma LastOfAppend(log: seq<Event>, e: Event, key: Key)
    ensures LastOf(log + [e], key) == if e.key == key then Some(e) else LastOf(log, key)
  {
    assert (log + [e])[..|log|] == log;
  }

  lemma SpacedOutAppend(log: seq<Event>, e: Event, retention: nat)
    requires SpacedOut(log, retention)
    requires e.Started? ==> Expired(LastOf(log, e.key), e.at, retention)
    ensures SpacedOut(log + [e], retention)
  {
    forall j | 0 <= j < |log| + 1 && (log + [e])[j].Started?
      ensures Expired(LastOf((log + [e])[..j], (log + [e])[j].key), (log + [e])[j].at, retention)
    {
      assert (log + [e])[..j] == log[..j];
      assert log[..|log|] == log;
    }
  }

  lemma TickKeeps(s: Sys, d: nat, retention: nat)
    requires Inv(s, retention)
    ensures Inv(s.Next(Tick(d), retention), retention)
  {
    var s' := s.Next(Tick(d), retention);
    forall key ensures TableMatches(s', key, retention) && OrphanMatches(s', key) {
      assert TableMatches(s, key, retention) && OrphanMatches(s, key);
      assert Busy(s', key) <==> Busy(s, key);
    }
    forall t <- s'.handlers ensures HandlerMatches(s', t) { assert HandlerMatches(s, t); }
  }

  /** Dropping expired entries alone keeps the invariant. */
  lemma RetainKeeps(s: Sys, retention: nat)
    requires Inv(s, retention)
    ensures Inv(s.(table := Retained(s.table, s.clock, retention)), retention)
  {
    var s' := s.(table := Retained(s.table, s.clock, retention));
    forall key ensures TableMatches(s', key, retention) && OrphanMatches(s', key) {
      assert TableMatches(s, key, retention) && OrphanMatches(s, key);
      assert Busy(s', key) <==> Busy(s, key);
    }
    forall t <- s'.handlers ensures HandlerMatches(s', t) { assert HandlerMatches(s, t); }
  }

  lemma StartKeeps(s: Sys, t: nat, key: Key, retention: nat)
    requires Inv(s, retention) && t !in s.handlers && key !in s.table
    ensures Inv(Sys(s.table[key := InProgress], s.clock, s.handlers[t := Running(key)], s.log + [Started(key, s.clock)]), retention)
  {
    var e := Started(key, s.clock);
    var s' := Sys(s.table[key := InProgress], s.clock, s.handlers[t := Running(key)], s.log + [e]);
    assert TableMatches(s, key, retention);
    SpacedOutAppend(s.log, e, retention);
    forall u <- s.handlers ensures s.handlers[u].key != key { assert HandlerMatches(s, u); }
    forall k ensures TableMatches(s', k, retention) && OrphanMatches(s', k) {
      LastOfAppend(s.log, e, k);
      assert TableMatches(s, k, retention) && OrphanMatches(s, k);
      if k == key {
        assert s'.handlers[t].key == key;
      } else if Busy(s, k) {
        var u :| u in s.handlers && s.handlers[u].key == k;
        assert s'.handlers[u].key == k;
      }
    }
    forall u <- s'.handlers ensures HandlerMatches(s', u) {
      LastOfAppend(s.log, e, s'.handlers[u].key);
      if u != t { assert HandlerMatches(s, u); }
    }
  }

  lemma ArriveKeeps(s: Sys, t: nat, key: Key, retention: nat)
    requires Inv(s, retention)
    ensures Inv(s.Next(Arrive(t, key), retention), retention)
  {
    hide Inv;
    if t !in s.handlers {
      RetainKeeps(s, retention);
      var kept := Retained(s.table, s.clock, retention);
      if key !in kept { StartKeeps(s.(table := kept), t, key, retention); }
    }
  }

  lemma StampKeeps(s: Sys, t: nat, retention: nat)
    requires Inv(s, retention)
    ensures Inv(s.Next(Stamp(t), retention), retention)
  {
    if t in s.handlers && s.handlers[t].Running? {
      var key := s.handlers[t].key;
      var e := Finished(key, s.clock);
      var s' := s.Next(Stamp(t), retention);
      assert HandlerMatches(s, t);
      SpacedOutAppend(s.log, e, retention);
      forall k ensures TableMatches(s', k, retention) && OrphanMatches(s', k) {
        LastOfAppend(s.log, e, k);
        assert TableMatches(s, k, retention) && OrphanMatches(s, k);
        if Busy(s, k) {
          var u :| u in s.handlers && s.handlers[u].key == k;
          assert s'.handlers[u].key == k;
        }
      }
      forall u <- s'.handlers ensures HandlerMatches(s', u) {
        LastOfAppend(s.log, e, s'.handlers[u].key);
        assert HandlerMatches(s, u);
      }
    }
  }

  lemma MarkKeeps(s: Sys, t: nat, retention: nat)
    requires Inv(s, retention)
    ensures Inv(s.Next(Mark(t), retention), retention)
  {
    if t in s.handlers && s.handlers[t].Stamped? {
      var key := s.handlers[t].key;
      var s' := s.Next(Mark(t), retention);
      assert HandlerMatches(s, t);
      forall k ensures TableMatches(s', k, retention) && OrphanMatches(s', k) {
        assert TableMatches(s, k, retention) && OrphanMatches(s, k);
        if k != key && Busy(s, k) {
          var u :| u in s.handlers && s.handlers[u].key == k;
          assert u in s'.handlers && s'.handlers[u].key == k;
        }
      }
      forall u <- s'.handlers ensures HandlerMatches(s', u) { assert HandlerMatches(s, u); }
    }
  }

  lemma AbandonKeeps(s: Sys, t: nat, retention: nat)
    requires Inv(s, retention)
    ensures Inv(s.Next(Abandon(t), retention), retention)
  {
    if t in s.handlers {
      var key := s.handlers[t].key;
      var e := Abandoned(key);
      var s' := s.Next(Abandon(t), retention);
      assert HandlerMatches(s, t);
      SpacedOutAppend(s.log, e, retention);
      forall k ensures TableMatches(s', k, retention) && OrphanMatches(s', k) {
        LastOfAppend(s.log, e, k);
        assert TableMatches(s, k, retention) && OrphanMatches(s, k);
        if k != key && Busy(s, k) {
          var u :| u in s.handlers && s.handlers[u].key == k;
          assert u in s'.handlers && s'.handlers[u].key == k;
        }
      }
      forall u <- s'.handlers ensures HandlerMatches(s', u) {
        LastOfAppend(s.log, e, s'.handlers[u].key);
        assert HandlerMatches(s, u);
      }
    }
  }

  lemma {:induction false} RunKeeps(clock: int, steps: seq<Step>, retention: nat)
    ensures Inv(Run(Init(clock), steps, retention), retention)
  {
    if steps != [] {
      hide Inv;
      RunKeeps(clock, steps[..|steps| - 1], retention);
      var s := Run(Init(clock), steps[..|steps| - 1], retention);
      match steps[|steps| - 1] {
        case Tick(d) => TickKeeps(s, d, retention);
        case Arrive(t, key) => ArriveKeeps(s, t, key, retention);
        case Stamp(t) => StampKeeps(s, t, retention);
        case Mark(t) => MarkKeeps(s, t, retention);
        case Abandon(t) => AbandonKeeps(s, t, retention);
      }
    }
  }

  // ---------------------------------------------------------------- what it means

  /** In every interleaving no (xid, client) ever has two handlers. */
  lemma NeverTwoHandlers(clock: int, steps: seq<Step>, retention: nat)
    ensures OnePerKey(Run(Init(clock), steps, retention))
  {
    RunKeeps(clock, steps, retention);
  }

  lemma {:induction false} LastOfIsAt(log: seq<Event>, key: Key, i: nat) returns (m: nat)
    requires i < |log| && log[i].key == key
    ensures i <= m < |log| && log[m].key == key && LastOf(log, key) == Some(log[m])
  {
    var n := |log| - 1;
    if log[n].key == key {
      m := n;
    } else {
      m := LastOfIsAt(log[..n], key, i);
    }
  }

  /** In every interleaving, between two executions of the same (xid, client) the first finished, and
      the second started more than the retention period after that. */
  lemma SecondExecutionIsLate(clock: int, steps: seq<Step>, retention: nat, i: nat, j: nat) returns (m: nat)
    requires var log := Run(Init(clock), steps, retention).log;
      i < j < |log| && log[i].Started? && log[j].Started? && log[i].key == log[j].key
    ensures var log := Run(Init(clock), steps, retention).log;
      i < m < j && log[m].Finished? && log[m].key == log[i].key && log[j].at - log[m].at > retention
  {
    RunKeeps(clock, steps, retention);
    var log := Run(Init(clock), steps, retention).log;
    m := LastOfIsAt(log[..j], log[j].key, i);
  }

  /** In every reachable state a call is executed on arrival exactly when no handler has its key and
      either nothing is known about the key or its last execution finished longer than the retention
      period ago.  In particular an abandoned call is never executed again. */
  lemma ArrivalRunsIff(clock: int, steps: seq<Step>, retention: nat, t: nat, key: Key)
    ensures var s := Run(Init(clock), steps, retention);
      t !in s.handlers ==>
        (s.Next(Arrive(t, key), retention).log != s.log
         <==> !Busy(s, key) && Expired(LastOf(s.log, key), s.clock, retention))
  {
    RunKeeps(clock, steps, retention);
    var s := Run(Init(clock), steps, retention);
    assert TableMatches(s, key, retention) && OrphanMatches(s, key);
    if Busy(s, key) {
      var u :| u in s.handlers && s.handlers[u].key == key;
      assert HandlerMatches(s, u);
    }
  }
}
