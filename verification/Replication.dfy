/**
 * The replicated write path. A leader stages a statement on its own store,
 * rolls it back and proposes the write-set; every node replays the log. Raft
 * appears as logs with terms: one leader per term, a new leader's log holds
 * every committed entry, and logs that share an entry share what precedes it.
 */
module Replication {
  import opened Values
  import opened BoltOverlay
  import opened BoltTxn
  import opened WriteSet

  /** What a statement writes when it runs on the data. */
  type Statement = Data -> seq<Write>

  /** A log entry: the shipped bytes and, for the proof, the statement and the data it was staged on. */
  datatype LogEntry = LogEntry(bytes: Bytes, run: Statement, base: Data)

  type Log = seq<LogEntry>

  /** Where a node is in ApplyWrite; the mutex admits one write at a time. */
  datatype Phase =
    | Free
    | Checked
    | AwaitBarrier(term: nat)
    | Ready(term: nat)
    | Staged(term: nat, entry: LogEntry)
    | Waiting(term: nat, index: nat)

  datatype Node = Node(log: Log, applied: nat, leading: bool, term: nat, barrierTerm: nat, phase: Phase)

  /** The cluster, with every log a leader has had and the last term anyone was elected in. */
  datatype Cluster = Cluster(nodes: map<nat, Node>, committed: Log, logs: seq<Log>, lastTerm: nat)

  // ----- What a log means -----

  /** The data after replaying the log's bytes, as every state machine does. */
  function Replay(log: Log): Data
  {
    if log == [] then map[] else AfterEntry(Replay(log[..|log|-1]), log[|log|-1].bytes)
  }

  /** The data after running the log's statements one after another. */
  function Serial(log: Log): Data
  {
    if log == [] then map[]
    else
      var before := Serial(log[..|log|-1]);
      Play(before, log[|log|-1].run(before))
  }

  /** The store of a node. */
  function StoreOf(n: Node): Data
    requires n.applied <= |n.log|
  {
    Replay(n.log[..n.applied])
  }

  ghost predicate Genuine(e: LogEntry)
  {
    var ws := e.run(e.base);
    SizedWrites(ws) && Allowed(ws) && e.bytes == EncodeWriteSet(ws)
  }

  /** Every entry was staged on exactly the replay of the entries before it. */
  ghost predicate InOrder(log: Log)
  {
    forall i :: 0 <= i < |log| ==> Genuine(log[i]) && log[i].base == Replay(log[..i])
  }

  /** Then replaying the log is running its statements one after another: no update is lost. */
  lemma {:induction false} InOrderIsSerial(log: Log)
    requires InOrder(log)
    ensures Replay(log) == Serial(log)
  {
    if log != [] {
      var front, e := log[..|log|-1], log[|log|-1];
      InOrderPrefix(log, |log| - 1);
      InOrderIsSerial(front);
      ReplayEncoded(e.run(e.base), e.base);
    }
  }

  lemma InOrderPrefix(log: Log, k: nat)
    requires InOrder(log) && k <= |log|
    ensures InOrder(log[..k])
  {
    forall i | 0 <= i < k ensures Genuine(log[..k][i]) && log[..k][i].base == Replay(log[..k][..i]) {
      assert log[..k][..i] == log[..i];
    }
  }

  lemma InOrderAppend(log: Log, e: LogEntry)
    requires InOrder(log) && Genuine(e) && e.base == Replay(log)
    ensures InOrder(log + [e])
  {
    var all := log + [e];
    forall i | 0 <= i < |all| ensures Genuine(all[i]) && all[i].base == Replay(all[..i]) {
      assert all[..i] == if i == |log| then log else log[..i];
    }
  }

  // ----- Steps -----

  function Set(c: Cluster, i: nat, n: Node): Cluster
  {
    c.(nodes := c.nodes[i := n])
  }

  /** A node wins a new term with a log that some leader had and that holds every committed entry. */
  ghost predicate Elect(c: Cluster, d: Cluster, i: nat, l: Log, k: nat)
  {
    && i in c.nodes && l in c.logs && k <= |l|
    && c.committed <= l[..k]
    && d == Set(c, i, c.nodes[i].(log := l[..k], leading := true, term := c.lastTerm + 1)).(lastTerm := c.lastTerm + 1)
  }

  /** A node steps down, learning a later term or not. */
  ghost predicate StepDown(c: Cluster, d: Cluster, i: nat, term: nat)
  {
    && i in c.nodes && c.nodes[i].term <= term <= c.lastTerm
    && d == Set(c, i, c.nodes[i].(leading := false, term := term))
  }

  /** A follower takes over a leader's log, keeping what it has applied. */
  ghost predicate Replicate(c: Cluster, d: Cluster, i: nat, l: Log, k: nat)
  {
    && i in c.nodes && !c.nodes[i].leading && l in c.logs && k <= |l|
    && c.nodes[i].applied <= |c.nodes[i].log| && c.nodes[i].log[..c.nodes[i].applied] <= l[..k]
    && d == Set(c, i, c.nodes[i].(log := l[..k]))
  }

  /** A leader commits a prefix of its log; leaders of later terms already hold it. */
  ghost predicate Commit(c: Cluster, d: Cluster, i: nat, k: nat)
  {
    && i in c.nodes && c.nodes[i].leading && k <= |c.nodes[i].log| && c.committed <= c.nodes[i].log[..k]
    && (forall j :: j in c.nodes && c.nodes[j].leading && c.nodes[j].term > c.nodes[i].term ==>
                      c.nodes[i].log[..k] <= c.nodes[j].log)
    && d == c.(committed := c.nodes[i].log[..k])
  }

  /** The state machine of a node applies its next committed entry. */
  ghost predicate Apply(c: Cluster, d: Cluster, i: nat)
  {
    && i in c.nodes && c.nodes[i].applied < |c.nodes[i].log|
    && c.nodes[i].log[..c.nodes[i].applied + 1] <= c.committed
    && d == Set(c, i, c.nodes[i].(applied := c.nodes[i].applied + 1))
  }

  /** ApplyWrite takes the mutex and finds that the node leads. */
  ghost predicate Begin(c: Cluster, d: Cluster, i: nat)
  {
    && i in c.nodes && c.nodes[i].phase == Free && c.nodes[i].leading
    && d == Set(c, i, c.nodes[i].(phase := Checked))
  }

  /** It reads the term, and needs a barrier if this is its first write of the term. */
  ghost predicate ReadTerm(c: Cluster, d: Cluster, i: nat)
  {
    && i in c.nodes && c.nodes[i].phase == Checked
    && var n := c.nodes[i];
       d == Set(c, i, n.(phase := if n.term == n.barrierTerm then Ready(n.term) else AwaitBarrier(n.term)))
  }

  /** The barrier returns: the node leads and its state machine has applied its whole log. */
  ghost predicate Barrier(c: Cluster, d: Cluster, i: nat)
  {
    && i in c.nodes && c.nodes[i].phase.AwaitBarrier? && c.nodes[i].leading
    && c.nodes[i].applied == |c.nodes[i].log|
    && var t := c.nodes[i].phase.term; d == Set(c, i, c.nodes[i].(barrierTerm := t, phase := Ready(t)))
  }

  /** The statement runs on the node's store and is rolled back. */
  ghost predicate Stage(c: Cluster, d: Cluster, i: nat, e: LogEntry)
  {
    && i in c.nodes && c.nodes[i].phase.Ready? && c.nodes[i].applied <= |c.nodes[i].log|
    && Genuine(e) && e.base == StoreOf(c.nodes[i])
    && d == Set(c, i, c.nodes[i].(phase := Staged(c.nodes[i].phase.term, e)))
  }

  /** The write-set is appended to the log of the node, which leads. */
  ghost predicate Propose(c: Cluster, d: Cluster, i: nat)
  {
    && i in c.nodes && c.nodes[i].phase.Staged? && c.nodes[i].leading
    && var n := c.nodes[i];
       var l := n.log + [n.phase.entry];
       d == Set(c, i, n.(log := l, phase := Waiting(n.term, |n.log|))).(logs := c.logs + [l])
  }

  /** The proposal returns once its entry is applied, or because leadership was lost. */
  ghost predicate Return(c: Cluster, d: Cluster, i: nat)
  {
    && i in c.nodes && c.nodes[i].phase.Waiting?
    && (var n := c.nodes[i]; n.applied > n.phase.index || !n.leading || n.term != n.phase.term)
    && d == Set(c, i, c.nodes[i].(phase := Free))
  }

  /** Any earlier error, or a statement without writes, ends the write. */
  ghost predicate Abandon(c: Cluster, d: Cluster, i: nat)
  {
    && i in c.nodes && !c.nodes[i].phase.Waiting?
    && d == Set(c, i, c.nodes[i].(phase := Free))
  }

  /** The guard that would make a proposal safe: the proposer still leads the term it staged in. */
  ghost predicate ProposeInTerm(c: Cluster, d: Cluster, i: nat)
  {
    Propose(c, d, i) && c.nodes[i].phase.term == c.nodes[i].term
  }

  /** What the node staged was staged on the data of the log it is about to extend. */
  ghost predicate OnTop(c: Cluster, i: nat)
  {
    i in c.nodes && c.nodes[i].phase.Staged? && c.nodes[i].phase.entry.base == Replay(c.nodes[i].log)
  }

  ghost predicate Next(c: Cluster, d: Cluster)
  {
    || (exists i, l, k :: Elect(c, d, i, l, k))
    || (exists i, t :: StepDown(c, d, i, t))
    || (exists i, l, k :: Replicate(c, d, i, l, k))
    || (exists i, k :: Commit(c, d, i, k))
    || (exists i :: Apply(c, d, i))
    || (exists i :: Begin(c, d, i))
    || (exists i :: ReadTerm(c, d, i))
    || (exists i :: Barrier(c, d, i))
    || (exists i, e :: Stage(c, d, i, e))
    || (exists i :: Propose(c, d, i))
    || (exists i :: Return(c, d, i))
    || (exists i :: Abandon(c, d, i))
  }

  ghost predicate Init(c: Cluster)
  {
    && c.committed == [] && c.logs == [[]]
    && forall i :: i in c.nodes ==> c.nodes[i] == Node([], 0, false, 0, 0, Free)
  }

  // ----- The invariant -----

  /** What the phase promises while the node leads the term of the phase. */
  ghost predicate PhaseOk(n: Node)
  {
    match n.phase
    case AwaitBarrier(t) => t <= n.term
    case Ready(t) => t == n.barrierTerm
    case Staged(t, e) => Genuine(e) && t <= n.term && (n.leading && n.term == t ==> e.base == Replay(n.log))
    case Waiting(t, index) => n.barrierTerm <= t <= n.term && (n.leading && n.term == t ==> |n.log| == index + 1)
    case _ => true
  }

  /** A leader that has passed the barrier of its term, and is not waiting, has applied its whole log. */
  ghost predicate CaughtUp(n: Node)
  {
    n.leading && n.barrierTerm == n.term && !n.phase.Waiting? ==> n.applied == |n.log|
  }

  ghost predicate NodeOk(n: Node, committed: Log, lastTerm: nat)
  {
    && n.applied <= |n.log| && n.barrierTerm <= n.term <= lastTerm
    && n.log[..n.applied] <= committed
    && InOrder(n.log) && PhaseOk(n) && CaughtUp(n)
  }

  ghost predicate Ok(c: Cluster)
  {
    && (forall i :: i in c.nodes ==> NodeOk(c.nodes[i], c.committed, c.lastTerm))
    && (forall l :: l in c.logs ==> InOrder(l))
    && InOrder(c.committed)
  }

  lemma InitOk(c: Cluster)
    requires Init(c)
    ensures Ok(c)
  {
  }

  /** Replacing one node by a good one keeps the invariant. */
  lemma SetOk(c: Cluster, i: nat, n: Node)
    requires Ok(c) && NodeOk(n, c.committed, c.lastTerm)
    ensures Ok(Set(c, i, n))
  {
    hide NodeOk, InOrder;
  }

  lemma LaterTermOk(c: Cluster, t: nat)
    requires Ok(c) && t >= c.lastTerm
    ensures Ok(c.(lastTerm := t))
  {
    hide InOrder, PhaseOk, CaughtUp;
  }

  lemma PrefixStays(log: Log, n: nat, l: Log)
    requires n <= |log| && log[..n] <= l
    ensures n <= |l| && l[..n] == log[..n]
  {
  }

  lemma ElectKeeps(c: Cluster, d: Cluster, i: nat, l: Log, k: nat)
    requires Ok(c) && Elect(c, d, i, l, k)
    ensures Ok(d)
  {
    hide InOrder, Genuine;
    var n := c.nodes[i];
    assert NodeOk(n, c.committed, c.lastTerm);
    InOrderPrefix(l, k);
    PrefixStays(n.log, n.applied, l[..k]);
    LaterTermOk(c, c.lastTerm + 1);
    SetOk(c.(lastTerm := c.lastTerm + 1), i, d.nodes[i]);
  }

  lemma StepDownKeeps(c: Cluster, d: Cluster, i: nat, t: nat)
    requires Ok(c) && StepDown(c, d, i, t)
    ensures Ok(d)
  {
    hide InOrder, Genuine;
    assert NodeOk(c.nodes[i], c.committed, c.lastTerm);
    SetOk(c, i, d.nodes[i]);
  }

  lemma ReplicateKeeps(c: Cluster, d: Cluster, i: nat, l: Log, k: nat)
    requires Ok(c) && Replicate(c, d, i, l, k)
    ensures Ok(d)
  {
    hide InOrder, Genuine;
    var n := c.nodes[i];
    assert NodeOk(n, c.committed, c.lastTerm);
    InOrderPrefix(l, k);
    PrefixStays(n.log, n.applied, l[..k]);
    SetOk(c, i, d.nodes[i]);
  }

  lemma CommitKeeps(c: Cluster, d: Cluster, i: nat, k: nat)
    requires Ok(c) && Commit(c, d, i, k)
    ensures Ok(d)
  {
    hide InOrder, Genuine, PhaseOk, CaughtUp;
    assert NodeOk(c.nodes[i], c.committed, c.lastTerm);
    InOrderPrefix(c.nodes[i].log, k);
    forall j | j in d.nodes ensures NodeOk(d.nodes[j], d.committed, d.lastTerm) {
      assert NodeOk(c.nodes[j], c.committed, c.lastTerm);
    }
  }

  lemma ApplyKeeps(c: Cluster, d: Cluster, i: nat)
    requires Ok(c) && Apply(c, d, i)
    ensures Ok(d)
  {
    hide InOrder, Genuine;
    assert NodeOk(c.nodes[i], c.committed, c.lastTerm);
    SetOk(c, i, d.nodes[i]);
  }

  /** The steps before staging. */
  lemma PrepareKeeps(c: Cluster, d: Cluster, i: nat)
    requires Ok(c) && (Begin(c, d, i) || ReadTerm(c, d, i) || Barrier(c, d, i))
    ensures Ok(d)
  {
    hide InOrder, Genuine;
    assert NodeOk(c.nodes[i], c.committed, c.lastTerm);
    SetOk(c, i, d.nodes[i]);
  }

  /** Staging reads the whole log of a leader that passed its barrier. */
  lemma StageKeeps(c: Cluster, d: Cluster, i: nat, e: LogEntry)
    requires Ok(c) && Stage(c, d, i, e)
    ensures Ok(d)
  {
    hide InOrder, Genuine;
    var n := c.nodes[i];
    assert NodeOk(n, c.committed, c.lastTerm);
    assert n.applied == |n.log| ==> n.log[..n.applied] == n.log;
    SetOk(c, i, d.nodes[i]);
  }

  /** A proposal keeps the invariant exactly when it was staged on the log it extends. */
  lemma ProposeKeeps(c: Cluster, d: Cluster, i: nat)
    requires Ok(c) && Propose(c, d, i)
    ensures Ok(d) <==> OnTop(c, i)
  {
    hide InOrder, Genuine;
    var n := c.nodes[i];
    assert NodeOk(n, c.committed, c.lastTerm);
    var l := n.log + [n.phase.entry];
    if OnTop(c, i) {
      InOrderAppend(n.log, n.phase.entry);
      assert l[..n.applied] == n.log[..n.applied];
      SetOk(c, i, d.nodes[i]);
    } else {
      NotInOrder(n.log, n.phase.entry);
      assert NodeOk(d.nodes[i], d.committed, d.lastTerm) ==> InOrder(l);
    }
  }

  lemma NotInOrder(log: Log, e: LogEntry)
    requires e.base != Replay(log)
    ensures !InOrder(log + [e])
  {
    var l := log + [e];
    assert l[|log|] == e && l[..|log|] == log;
  }

  /** The term guard is enough. */
  lemma InTermIsOnTop(c: Cluster, d: Cluster, i: nat)
    requires Ok(c) && ProposeInTerm(c, d, i)
    ensures OnTop(c, i)
  {
    assert NodeOk(c.nodes[i], c.committed, c.lastTerm);
  }

  lemma ReturnKeeps(c: Cluster, d: Cluster, i: nat)
    requires Ok(c) && (Return(c, d, i) || Abandon(c, d, i))
    ensures Ok(d)
  {
    hide InOrder, Genuine;
    assert NodeOk(c.nodes[i], c.committed, c.lastTerm);
    SetOk(c, i, d.nodes[i]);
  }

  /** Every other step keeps the invariant. */
  lemma OthersKeep(c: Cluster, d: Cluster)
    requires Ok(c) && Next(c, d) && forall i :: !Propose(c, d, i)
    ensures Ok(d)
  {
    hide Ok, Elect, StepDown, Replicate, Commit, Apply, Begin, ReadTerm, Barrier, Stage, Propose, Return, Abandon;
    if i, l, k :| Elect(c, d, i, l, k) {
      ElectKeeps(c, d, i, l, k);
    } else if i, t :| StepDown(c, d, i, t) {
      StepDownKeeps(c, d, i, t);
    } else if i, l, k :| Replicate(c, d, i, l, k) {
      ReplicateKeeps(c, d, i, l, k);
    } else if i, k :| Commit(c, d, i, k) {
      CommitKeeps(c, d, i, k);
    } else if i :| Apply(c, d, i) {
      ApplyKeeps(c, d, i);
    } else if i :| Begin(c, d, i) {
      PrepareKeeps(c, d, i);
    } else if i :| ReadTerm(c, d, i) {
      PrepareKeeps(c, d, i);
    } else if i :| Barrier(c, d, i) {
      PrepareKeeps(c, d, i);
    } else if i, e :| Stage(c, d, i, e) {
      StageKeeps(c, d, i, e);
    } else if i :| Return(c, d, i) {
      ReturnKeeps(c, d, i);
    } else {
      var i :| Abandon(c, d, i);
      ReturnKeeps(c, d, i);
    }
  }

  ghost predicate ProposedOnTop(c: Cluster, d: Cluster)
  {
    forall i :: Propose(c, d, i) ==> OnTop(c, i)
  }

  lemma NextKeeps(c: Cluster, d: Cluster)
    requires Ok(c) && Next(c, d)
    ensures Ok(d) <==> ProposedOnTop(c, d)
  {
    hide Ok, Next, Propose, OnTop;
    if i :| Propose(c, d, i) {
      forall j | Propose(c, d, j) ensures Ok(d) <==> OnTop(c, j) {
        ProposeKeeps(c, d, j);
      }
    } else {
      OthersKeep(c, d);
    }
  }

  // ----- Runs -----

  ghost predicate IsRun(cs: seq<Cluster>)
  {
    cs != [] && Init(cs[0]) && forall k :: 0 <= k < |cs| - 1 ==> Next(cs[k], cs[k+1])
  }

  /** Every proposal of the run was staged on the log it extended. */
  ghost predicate AllOnTop(cs: seq<Cluster>)
  {
    forall k :: 0 <= k < |cs| - 1 ==> ProposedOnTop(cs[k], cs[k+1])
  }

  lemma {:induction false} RunOk(cs: seq<Cluster>, k: nat)
    requires IsRun(cs) && k < |cs| && forall j :: 0 <= j < k ==> ProposedOnTop(cs[j], cs[j+1])
    ensures Ok(cs[k])
  {
    hide Next, ProposedOnTop, Ok;
    if k == 0 {
      InitOk(cs[0]);
    } else {
      RunOk(cs, k - 1);
      assert Next(cs[k-1], cs[k]);
      NextKeeps(cs[k-1], cs[k]);
    }
  }

  ghost predicate LogsInOrder(c: Cluster)
  {
    forall l :: l in c.logs ==> InOrder(l)
  }

  lemma ProposalInOrder(c: Cluster, d: Cluster)
    requires LogsInOrder(d)
    ensures ProposedOnTop(c, d)
  {
    hide InOrder;
    forall i | Propose(c, d, i) ensures OnTop(c, i) {
      var n := c.nodes[i];
      var l := n.log + [n.phase.entry];
      assert d.logs[|c.logs|] == l;
      if n.phase.entry.base != Replay(n.log) {
        NotInOrder(n.log, n.phase.entry);
      }
    }
  }

  /**
   * A run keeps the invariant, and every log any leader had is a log of
   * statements staged one on top of the other, exactly when every proposal
   * was staged on the log it extended.
   */
  lemma RunExact(cs: seq<Cluster>)
    requires IsRun(cs)
    ensures AllOnTop(cs) <==> forall k :: 0 <= k < |cs| ==> Ok(cs[k])
    ensures AllOnTop(cs) <==> forall k :: 0 <= k < |cs| ==> LogsInOrder(cs[k])
  {
    hide Next, ProposedOnTop, IsRun, LogsInOrder, Ok;
    if AllOnTop(cs) {
      forall k | 0 <= k < |cs| ensures Ok(cs[k]) && LogsInOrder(cs[k]) {
        RunOk(cs, k);
        OkLogs(cs[k]);
      }
    }
    if forall k :: 0 <= k < |cs| ==> Ok(cs[k]) {
      forall k | 0 <= k < |cs| ensures LogsInOrder(cs[k]) {
        OkLogs(cs[k]);
      }
    }
    if forall k :: 0 <= k < |cs| ==> LogsInOrder(cs[k]) {
      forall k | 0 <= k < |cs| - 1 ensures ProposedOnTop(cs[k], cs[k+1]) {
        ProposalInOrder(cs[k], cs[k+1]);
      }
    }
  }

  lemma OkLogs(c: Cluster)
    requires Ok(c)
    ensures LogsInOrder(c)
  {
  }

  ghost predicate ProposedInTerm(c: Cluster, d: Cluster)
  {
    forall i :: Propose(c, d, i) ==> ProposeInTerm(c, d, i)
  }

  lemma ProposedInTermIsOnTop(c: Cluster, d: Cluster)
    requires Ok(c) && ProposedInTerm(c, d)
    ensures ProposedOnTop(c, d)
  {
    forall i | Propose(c, d, i) ensures OnTop(c, i) {
      InTermIsOnTop(c, d, i);
    }
  }

  /** Every proposal of the run comes in the term of its staging. */
  ghost predicate AllInTerm(cs: seq<Cluster>)
  {
    forall k :: 0 <= k < |cs| - 1 ==> ProposedInTerm(cs[k], cs[k+1])
  }

  lemma {:induction false} InTermRun(cs: seq<Cluster>, k: nat)
    requires IsRun(cs) && AllInTerm(cs) && k < |cs|
    ensures forall j :: 0 <= j < k ==> ProposedOnTop(cs[j], cs[j+1])
  {
    hide IsRun, ProposedInTerm, ProposedOnTop, Ok;
    if k > 0 {
      InTermRun(cs, k - 1);
      RunOk(cs, k - 1);
      ProposedInTermIsOnTop(cs[k-1], cs[k-1+1]);
    }
  }

  lemma InTermIsEnough(cs: seq<Cluster>)
    requires IsRun(cs) && AllInTerm(cs)
    ensures AllOnTop(cs)
  {
    InTermRun(cs, |cs| - 1);
  }

  /**
   * In every state of such a run, each store is what running the statements
   * of its log one after another gives, and nodes that have applied equally
   * much hold equal stores.
   */
  lemma RunIsSerial(cs: seq<Cluster>, k: nat, i: nat, j: nat)
    requires IsRun(cs) && AllOnTop(cs) && k < |cs| && i in cs[k].nodes && j in cs[k].nodes
    ensures var n := cs[k].nodes[i]; n.applied <= |n.log| && StoreOf(n) == Serial(n.log[..n.applied])
    ensures var n, m := cs[k].nodes[i], cs[k].nodes[j];
            m.applied <= |m.log| && (n.applied == m.applied ==> StoreOf(n) == StoreOf(m))
    ensures InOrder(cs[k].committed) && Replay(cs[k].committed) == Serial(cs[k].committed)
  {
    hide InOrder, Genuine, PhaseOk, CaughtUp;
    RunOk(cs, k);
    var n, m := cs[k].nodes[i], cs[k].nodes[j];
    assert NodeOk(n, cs[k].committed, cs[k].lastTerm) && NodeOk(m, cs[k].committed, cs[k].lastTerm);
    InOrderPrefix(n.log, n.applied);
    InOrderIsSerial(n.log[..n.applied]);
    assert n.log[..n.applied] == cs[k].committed[..n.applied] && m.log[..m.applied] == cs[k].committed[..m.applied];
    InOrderIsSerial(cs[k].committed);
  }

  // ----- A run that loses an update -----

  lemma ExtendRun(cs: seq<Cluster>, d: Cluster)
    requires IsRun(cs) && Next(cs[|cs|-1], d)
    ensures IsRun(cs + [d])
  {
    hide Next, Init;
    var ds := cs + [d];
    forall k | 0 <= k < |ds| - 1 ensures Next(ds[k], ds[k+1]) {
      if k < |cs| - 1 {
        assert Next(cs[k], cs[k+1]);
      }
    }
  }

  const COUNTER: Bytes := [0]

  /** Reads a counter and writes it one longer. */
  function Increment(d: Data): seq<Write>
  {
    [Put(COUNTER, (if COUNTER in d then d[COUNTER] else []) + [1])]
  }

  const INCREMENT: LogEntry := LogEntry(EncodeWriteSet(Increment(map[])), Increment, map[])

  lemma IncrementGenuine()
    ensures Genuine(INCREMENT)
  {
  }

  /** A node that has been elected stages an increment on the empty store. */
  lemma StageOne(cs: seq<Cluster>, i: nat, t: nat) returns (ds: seq<Cluster>)
    requires cs != [] && IsRun(cs) && var c := cs[|cs|-1];
             i in c.nodes && t > 0 && c.nodes[i] == Node([], 0, true, t, 0, Free)
    ensures ds != [] && IsRun(ds)
    ensures var c := cs[|cs|-1];
            ds[|ds|-1] == Set(c, i, Node([], 0, true, t, t, Staged(t, INCREMENT)))
  {
    hide Genuine, InOrder, EncodeWriteSet, IsRun, Init;
    IncrementGenuine();
    var c := cs[|cs|-1];
    var c1 := Set(c, i, c.nodes[i].(phase := Checked));
    assert Begin(c, c1, i);
    ExtendRun(cs, c1);
    var c2 := Set(c1, i, c1.nodes[i].(phase := AwaitBarrier(t)));
    assert ReadTerm(c1, c2, i);
    ExtendRun(cs + [c1], c2);
    var c3 := Set(c2, i, c2.nodes[i].(barrierTerm := t, phase := Ready(t)));
    assert Barrier(c2, c3, i);
    ExtendRun(cs + [c1] + [c2], c3);
    var c4 := Set(c3, i, c3.nodes[i].(phase := Staged(t, INCREMENT)));
    assert StoreOf(c3.nodes[i]) == map[];
    assert Stage(c3, c4, i, INCREMENT);
    ExtendRun(cs + [c1] + [c2] + [c3], c4);
    ds := cs + [c1] + [c2] + [c3] + [c4];
    assert c4 == Set(c, i, Node([], 0, true, t, t, Staged(t, INCREMENT)));
  }

  /** A leader that staged steps down and another leader is elected on the empty log. */
  lemma HandOver(cs: seq<Cluster>, i: nat, j: nat) returns (ds: seq<Cluster>)
    requires cs != [] && IsRun(cs) && var c := cs[|cs|-1];
             && i in c.nodes && j in c.nodes && i != j && c.committed == [] && [] in c.logs
             && c.nodes[i].leading && c.nodes[i].term <= c.lastTerm
    ensures ds != [] && IsRun(ds)
    ensures var c := cs[|cs|-1];
            ds[|ds|-1] == Set(Set(c, i, c.nodes[i].(leading := false)), j,
                              c.nodes[j].(log := [], leading := true, term := c.lastTerm + 1))
                          .(lastTerm := c.lastTerm + 1)
  {
    hide Genuine, InOrder, IsRun, Init;
    var c := cs[|cs|-1];
    var c1 := Set(c, i, c.nodes[i].(leading := false));
    assert StepDown(c, c1, i, c.nodes[i].term);
    ExtendRun(cs, c1);
    var empty: Log := [];
    var n := c1.nodes[j].(log := empty[..0], leading := true, term := c.lastTerm + 1);
    var c2 := Set(c1, j, n).(lastTerm := c.lastTerm + 1);
    assert Elect(c1, c2, j, empty, 0);
    ExtendRun(cs + [c1], c2);
    ds := cs + [c1] + [c2];
  }

  /** A write that goes through: staged, proposed, committed, applied by the leader and then by a follower. */
  lemma WriteGoesThrough() returns (cs: seq<Cluster>)
    ensures cs != [] && IsRun(cs)
    ensures var c := cs[|cs|-1];
            && c.nodes.Keys == {1, 2} && c.committed == [INCREMENT] && c.nodes[1].phase == Free
            && (forall i :: i in c.nodes ==> c.nodes[i].applied <= |c.nodes[i].log|
                                             && StoreOf(c.nodes[i]) == map[COUNTER := [1]])
  {
    hide Genuine, InOrder, EncodeWriteSet, IsRun, Replay, Serial;
    var idle := Node([], 0, false, 0, 0, Free);
    var empty: Log := [];
    var c0 := Cluster(map[1 := idle, 2 := idle], [], [empty], 0);
    FirstState(c0);
    var c1 := Set(c0, 1, Node(empty[..0], 0, true, 1, 0, Free)).(lastTerm := 1);
    assert Elect(c0, c1, 1, empty, 0);
    ExtendRun([c0], c1);
    var ds := StageOne([c0] + [c1], 1, 1);
    var c := ds[|ds|-1];
    assert c.nodes == map[1 := Node([], 0, true, 1, 1, Staged(1, INCREMENT)), 2 := idle];
    cs := CommitOne(ds);
    cs := ApplyOne(cs);
    cs := Follow(cs);
    ReplayTwo();
  }

  /** The leader proposes what it staged and commits it. */
  lemma CommitOne(ds: seq<Cluster>) returns (cs: seq<Cluster>)
    requires ds != [] && IsRun(ds)
    requires var c := ds[|ds|-1];
             && c.nodes == map[1 := Node([], 0, true, 1, 1, Staged(1, INCREMENT)), 2 := Node([], 0, false, 0, 0, Free)]
             && c.committed == []
    ensures cs != [] && IsRun(cs)
    ensures var c := cs[|cs|-1];
            && c.nodes == map[1 := Node([INCREMENT], 0, true, 1, 1, Waiting(1, 0)), 2 := Node([], 0, false, 0, 0, Free)]
            && c.committed == [INCREMENT] && [INCREMENT] in c.logs
  {
    hide Genuine, InOrder, EncodeWriteSet, IsRun, Replay, Init;
    var c := ds[|ds|-1];
    var one := [INCREMENT];
    var c1 := Set(c, 1, c.nodes[1].(log := [] + one, phase := Waiting(1, 0))).(logs := c.logs + [[] + one]);
    assert Propose(c, c1, 1);
    ExtendRun(ds, c1);
    assert [] + one == one && one[..1] == one;
    var c2 := c1.(committed := one[..1]);
    assert Commit(c1, c2, 1, 1);
    ExtendRun(ds + [c1], c2);
    cs := ds + [c1] + [c2];
    assert c2.logs[|c.logs|] == one;
  }

  /** The leader applies the entry, and the write returns. */
  lemma ApplyOne(ds: seq<Cluster>) returns (cs: seq<Cluster>)
    requires ds != [] && IsRun(ds)
    requires var c := ds[|ds|-1];
             && c.nodes == map[1 := Node([INCREMENT], 0, true, 1, 1, Waiting(1, 0)),
                               2 := Node([], 0, false, 0, 0, Free)]
             && c.committed == [INCREMENT] && [INCREMENT] in c.logs
    ensures cs != [] && IsRun(cs)
    ensures var c := cs[|cs|-1];
            && c.nodes == map[1 := Node([INCREMENT], 1, true, 1, 1, Free), 2 := Node([], 0, false, 0, 0, Free)]
            && c.committed == [INCREMENT] && [INCREMENT] in c.logs
  {
    hide Genuine, InOrder, EncodeWriteSet, IsRun, Replay, Init;
    var c := ds[|ds|-1];
    assert [INCREMENT][..1] == [INCREMENT];
    var c1 := Set(c, 1, c.nodes[1].(applied := 1));
    assert Apply(c, c1, 1);
    ExtendRun(ds, c1);
    var c2 := Set(c1, 1, c1.nodes[1].(phase := Free));
    assert Return(c1, c2, 1);
    ExtendRun(ds + [c1], c2);
    cs := ds + [c1] + [c2];
  }

  /** The follower takes over the log and applies it. */
  lemma Follow(ds: seq<Cluster>) returns (cs: seq<Cluster>)
    requires ds != [] && IsRun(ds)
    requires var c := ds[|ds|-1];
             && c.nodes == map[1 := Node([INCREMENT], 1, true, 1, 1, Free), 2 := Node([], 0, false, 0, 0, Free)]
             && c.committed == [INCREMENT] && [INCREMENT] in c.logs
    ensures cs != [] && IsRun(cs)
    ensures var c := cs[|cs|-1];
            && c.nodes == map[1 := Node([INCREMENT], 1, true, 1, 1, Free), 2 := Node([INCREMENT], 1, false, 0, 0, Free)]
            && c.committed == [INCREMENT]
            && c.nodes[1].log[..1] == [INCREMENT] && c.nodes[2].log[..1] == [INCREMENT]
  {
    hide Genuine, InOrder, EncodeWriteSet, IsRun, Replay, Init;
    var c := ds[|ds|-1];
    var one := [INCREMENT];
    assert one[..1] == one;
    var c1 := Set(c, 2, c.nodes[2].(log := one[..1]));
    assert Replicate(c, c1, 2, one, 1);
    ExtendRun(ds, c1);
    var c2 := Set(c1, 2, c1.nodes[2].(applied := 1));
    assert Apply(c1, c2, 2);
    ExtendRun(ds + [c1], c2);
    cs := ds + [c1] + [c2];
  }

  /**
   * Two nodes stage the same increment in terms 1 and 2; the first proposes
   * after it has been elected again, in term 3. Both entries are committed
   * and one increment is lost.
   */
  lemma LostUpdate() returns (cs: seq<Cluster>)
    ensures cs != [] && IsRun(cs) && !AllOnTop(cs)
    ensures var log := cs[|cs|-1].committed;
            |log| == 2 && !InOrder(log) && Replay(log) == map[COUNTER := [1]] && Serial(log) == map[COUNTER := [1, 1]]
  {
    hide Genuine, InOrder, EncodeWriteSet, IsRun, Replay, Serial;
    var idle := Node([], 0, false, 0, 0, Free);
    var empty: Log := [];
    var c0 := Cluster(map[1 := idle, 2 := idle], [], [empty], 0);
    FirstState(c0);
    var c1 := Set(c0, 1, Node(empty[..0], 0, true, 1, 0, Free)).(lastTerm := 1);
    assert Elect(c0, c1, 1, empty, 0);
    ExtendRun([c0], c1);
    var ds := StageOne([c0] + [c1], 1, 1);
    ds := HandOver(ds, 1, 2);
    ds := StageOne(ds, 2, 2);
    var c := ds[|ds|-1];
    assert c.nodes[2] == Node([], 0, true, 2, 2, Staged(2, INCREMENT));
    assert c.nodes[1] == Node([], 0, false, 1, 1, Staged(1, INCREMENT));
    assert BothStaged(c);
    cs := CommitSecond(ds);
    cs := CommitStale(cs);
    OneLost();
    if AllOnTop(cs) {
      RunOk(cs, |cs| - 1);
    }
  }

  lemma FirstState(c: Cluster)
    requires Init(c)
    ensures IsRun([c])
  {
  }

  ghost predicate BothStaged(c: Cluster)
  {
    && c.nodes == map[1 := Node([], 0, false, 1, 1, Staged(1, INCREMENT)),
                      2 := Node([], 0, true, 2, 2, Staged(2, INCREMENT))]
    && c.committed == [] && c.lastTerm == 2
  }

  /** The second node's entry is in the log and committed; the first node still holds what it staged. */
  ghost predicate SecondCommitted(c: Cluster)
  {
    && c.nodes == map[1 := Node([], 0, false, 1, 1, Staged(1, INCREMENT)),
                      2 := Node([INCREMENT], 0, true, 2, 2, Waiting(2, 0))]
    && c.committed == [INCREMENT] && c.lastTerm == 2 && [INCREMENT] in c.logs
  }

  lemma CommitSecond(ds: seq<Cluster>) returns (cs: seq<Cluster>)
    requires ds != [] && IsRun(ds) && BothStaged(ds[|ds|-1])
    ensures cs != [] && IsRun(cs) && SecondCommitted(cs[|cs|-1])
  {
    hide Genuine, InOrder, EncodeWriteSet, IsRun, Replay, Init;
    var c := ds[|ds|-1];
    var one := [INCREMENT];
    var c1 := Set(c, 2, c.nodes[2].(log := [] + one, phase := Waiting(2, 0))).(logs := c.logs + [[] + one]);
    assert Propose(c, c1, 2);
    ExtendRun(ds, c1);
    assert [] + one == one && one[..1] == one;
    var c2 := c1.(committed := one[..1]);
    assert Commit(c1, c2, 2, 1);
    ExtendRun(ds + [c1], c2);
    cs := ds + [c1] + [c2];
    assert c2.logs[|c.logs|] == one;
  }

  /** The first node is elected with the committed log and proposes what it staged two terms ago. */
  lemma CommitStale(ds: seq<Cluster>) returns (cs: seq<Cluster>)
    requires ds != [] && IsRun(ds) && SecondCommitted(ds[|ds|-1])
    ensures cs != [] && IsRun(cs) && cs[|cs|-1].committed == [INCREMENT, INCREMENT]
  {
    hide Genuine, InOrder, EncodeWriteSet, IsRun, Replay, Init;
    var c := ds[|ds|-1];
    var one, two := [INCREMENT], [INCREMENT, INCREMENT];
    assert one[..1] == one && one + [INCREMENT] == two && two[..2] == two;
    var c1 := Set(c, 1, c.nodes[1].(log := one[..1], leading := true, term := 3)).(lastTerm := 3);
    assert Elect(c, c1, 1, one, 1);
    ExtendRun(ds, c1);
    var c2 := Set(c1, 1, c1.nodes[1].(log := two, phase := Waiting(3, 1))).(logs := c1.logs + [two]);
    assert Propose(c1, c2, 1);
    ExtendRun(ds + [c1], c2);
    var c3 := c2.(committed := two[..2]);
    assert Commit(c2, c3, 1, 2);
    ExtendRun(ds + [c1] + [c2], c3);
    cs := ds + [c1] + [c2] + [c3];
  }

  /** Each increment was recorded as writing the first value. */
  lemma ReplayTwo()
    ensures Replay([INCREMENT]) == map[COUNTER := [1]] && Replay([INCREMENT, INCREMENT]) == map[COUNTER := [1]]
  {
    hide EncodeWriteSet, Replayed;
    var ws := Increment(map[]);
    assert ws[..0] == [] && [] + [1] == [1];
    ReplayEncoded(ws, map[]);
    ReplayEncoded(ws, map[COUNTER := [1]]);
    assert [INCREMENT, INCREMENT][..1] == [INCREMENT] && [INCREMENT][..0] == [];
    assert Play(map[], ws) == map[COUNTER := [1]] && Play(map[COUNTER := [1]], ws) == map[COUNTER := [1]];
  }

  /** Run one after the other, the second increment sees the first. */
  lemma SerialTwo()
    ensures Serial([INCREMENT, INCREMENT]) == map[COUNTER := [1, 1]]
  {
    hide EncodeWriteSet;
    assert [INCREMENT, INCREMENT][..1] == [INCREMENT] && [INCREMENT][..0] == [];
    var ws, us := Increment(map[]), Increment(map[COUNTER := [1]]);
    assert [1] + [1] == [1, 1] && [] + [1] == [1];
    assert ws[..0] == [] && us[..0] == [];
    assert Play(map[], ws) == map[COUNTER := [1]];
    assert Play(map[COUNTER := [1]], us) == map[COUNTER := [1, 1]];
    assert Serial([INCREMENT]) == map[COUNTER := [1]];
  }

  lemma OneLost()
    ensures var log := [INCREMENT, INCREMENT];
            !InOrder(log) && Replay(log) == map[COUNTER := [1]] && Serial(log) == map[COUNTER := [1, 1]]
  {
    hide Replay, Serial, EncodeWriteSet, Genuine;
    ReplayTwo();
    SerialTwo();
    var log := [INCREMENT, INCREMENT];
    assert log[..1] == [INCREMENT];
    assert COUNTER in Replay(log[..1]) && COUNTER !in log[1].base;
  }
}
