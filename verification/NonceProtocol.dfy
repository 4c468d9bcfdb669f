/** Any number of connections and threads reserving, observing and announcing at once, and the server
    that receives what they send. The only assumption is SQLite's write lock. */
module NonceProtocol {
  import opened Common
  import opened Nonce
  import Payload

  /** The transaction a call runs: issue a nonce above a floor (for an explicit announcement the floor is
      one below the nonce that is wanted), or fold in a nonce seen elsewhere. */
  datatype Job =
    | Issue(key: Key, floor: nat, want: Option<nat>)
    | Watch(key: Key, seen: nat)

  /** A committed transaction and the value it left in the table. */
  datatype Event = Event(job: Job, value: nat)

  datatype Phase =
    | Idle
    | Ready(job: Job)                  // checks passed, lock not held
    | Began(job: Job)                  // lock held
    | HasRead(job: Job, stored: nat)   // lock held
    | Written(job: Job, value: nat)    // lock held
    | Holding(event: nat)              // committed, the caller has not been answered

  /** A message the server stored; its `seq` is its position plus one. */
  datatype Message = Message(key: Key, nonce: nat)

  datatype State = State(
    table: map<Key, nat>,
    pending: map<Key, nat>,
    lock: Option<nat>,
    procs: map<nat, Phase>,
    history: seq<Event>,               // in commit order
    returned: set<nat>,                // events whose nonce was handed to the caller
    burnt: set<nat>,                   // events whose nonce was refused as raced
    serverLast: map<Key, nat>,
    messages: seq<Message>)

  datatype Step =
    | Start(p: nat, job: Job)
    | Announce(p: nat, key: Key, chosen: nat)
    | Begin(p: nat)
    | Read(p: nat)
    | Write(p: nat)
    | Commit(p: nat)
    | Stop(p: nat)                     // exception, rollback or crash at any point
    | Answer(p: nat)
    | Deliver(event: nat)              // a signed message reaches the server, perhaps again

  predicate Init(s: State) {
    s == State(map[], map[], None, map[], [], {}, {}, map[], [])
  }

  function PhaseOf(s: State, p: nat): Phase {
    if p in s.procs then s.procs[p] else Idle
  }

  /** The value a job leaves for its key, given the value it read. */
  function Outcome(job: Job, stored: nat): nat {
    match job
    case Issue(_, floor, _) => Next(stored, floor)
    case Watch(_, seen) => Max(stored, seen)
  }

  predicate Enabled(s: State, step: Step) {
    match step
    case Start(p, job) => PhaseOf(s, p).Idle? && (job.Issue? ==> job.want.None?)
    // `current` is read without the lock
    case Announce(p, key, chosen) => PhaseOf(s, p).Idle? && chosen >= 1 && chosen > Stored(s.table, key)
    case Begin(p) => PhaseOf(s, p).Ready? && s.lock.None?
    case Read(p) => PhaseOf(s, p).Began?
    case Write(p) => PhaseOf(s, p).HasRead? && Outcome(PhaseOf(s, p).job, PhaseOf(s, p).stored) <= MAX_STORABLE_NONCE
    case Commit(p) => PhaseOf(s, p).Written?
    case Stop(p) => true
    case Answer(p) => PhaseOf(s, p).Holding? && PhaseOf(s, p).event < |s.history|
    case Deliver(event) => event in s.returned && event < |s.history|
  }

  function Go(s: State, p: nat, phase: Phase): State {
    s.(procs := s.procs[p := phase])
  }

  /** An explicit announcement is answered only with the nonce it asked for. */
  predicate Answerable(e: Event) {
    e.job.Issue? && (e.job.want.Some? ==> e.value == e.job.want.value)
  }

  /** The server's nonce check and its message log. */
  function Receive(s: State, key: Key, nonce: nat): State {
    if nonce <= Stored(s.serverLast, key) then s
    else s.(serverLast := s.serverLast[key := nonce], messages := s.messages + [Message(key, nonce)])
  }

  function After(s: State, step: Step): State
    requires Enabled(s, step)
  {
    match step
    case Start(p, job) => Go(s, p, Ready(job))
    case Announce(p, key, chosen) => Go(s, p, Ready(Issue(key, chosen - 1, Some(chosen))))
    case Begin(p) => Go(s, p, Began(PhaseOf(s, p).job)).(lock := Some(p), pending := s.table)
    case Read(p) => var job := PhaseOf(s, p).job; Go(s, p, HasRead(job, Stored(s.pending, job.key)))
    case Write(p) =>
      var job := PhaseOf(s, p).job;
      var stored := PhaseOf(s, p).stored;
      var value := Outcome(job, stored);
      var pending := if job.Watch? && job.seen <= stored then s.pending else s.pending[job.key := value];
      Go(s, p, Written(job, value)).(pending := pending)
    case Commit(p) =>
      var job := PhaseOf(s, p).job;
      Go(s, p, if job.Issue? then Holding(|s.history|) else Idle).(
        table := s.pending, lock := None, history := s.history + [Event(job, PhaseOf(s, p).value)])
    case Stop(p) => Go(s, p, Idle).(lock := if s.lock == Some(p) then None else s.lock)
    case Answer(p) =>
      var i := PhaseOf(s, p).event;
      if Answerable(s.history[i]) then Go(s, p, Idle).(returned := s.returned + {i})
      else Go(s, p, Idle).(burnt := s.burnt + {i})
    case Deliver(event) => Receive(s, s.history[event].job.key, s.history[event].value)
  }

  function Run(s: State, steps: seq<Step>): Option<State>
    decreases |steps|
  {
    if steps == [] then Some(s)
    else if !Enabled(s, steps[0]) then None
    else Run(After(s, steps[0]), steps[1..])
  }

  // ----- sequential histories ---------------------------------------------------------------------

  /** The value a history leaves for a key. */
  function LastOf(h: seq<Event>, key: Key): nat {
    if h == [] then 0
    else if h[|h| - 1].job.key == key then h[|h| - 1].value
    else LastOf(h[..|h| - 1], key)
  }

  /** An event that one undisturbed call could have produced after this history. */
  predicate EventOk(h: seq<Event>, e: Event) {
    && e.value == Outcome(e.job, LastOf(h, e.job.key)) <= MAX_STORABLE_NONCE
    && (e.job.Issue? && e.job.want.Some? ==> e.job.want.value >= 1 && e.job.floor == e.job.want.value - 1)
  }

  predicate Legal(h: seq<Event>) {
    forall j :: 0 <= j < |h| ==> EventOk(h[..j], h[j])
  }

  lemma LegalExtends(h: seq<Event>, e: Event)
    requires Legal(h) && EventOk(h, e)
    ensures Legal(h + [e])
  {
    var g := h + [e];
    forall j | 0 <= j < |g| ensures EventOk(g[..j], g[j]) {
      assert j < |h| ==> g[..j] == h[..j];
      assert j == |h| ==> g[..j] == h;
    }
  }

  lemma LastOfExtends(h: seq<Event>, e: Event, key: Key)
    ensures LastOf(h + [e], key) == if e.job.key == key then e.value else LastOf(h, key)
  {
    assert (h + [e])[..|h|] == h;
  }

  // ----- the invariant ----------------------------------------------------------------------------

  predicate Locking(phase: Phase) {
    phase.Began? || phase.HasRead? || phase.Written?
  }

  predicate JobOk(job: Job) {
    job.Issue? && job.want.Some? ==> job.want.value >= 1 && job.floor == job.want.value - 1
  }

  /** The open transaction, if any, has seen nothing but the committed table. */
  ghost predicate LockInv(s: State) {
    && (forall p: nat :: Locking(PhaseOf(s, p)) ==> s.lock == Some(p))
    && (s.lock.Some? ==>
          match PhaseOf(s, s.lock.value)
          case Began(job) => s.pending == s.table
          case HasRead(job, stored) => s.pending == s.table && stored == Stored(s.table, job.key)
          case Written(job, value) =>
            && value == Outcome(job, Stored(s.table, job.key)) <= MAX_STORABLE_NONCE
            && forall key: Key :: Stored(s.pending, key) == if key == job.key then value else Stored(s.table, key)
          case _ => false)
  }

  ghost predicate JobInv(s: State) {
    forall p: nat :: (PhaseOf(s, p).Ready? || Locking(PhaseOf(s, p))) ==> JobOk(PhaseOf(s, p).job)
  }

  /** The committed table is what the sequential history of commits leaves. */
  ghost predicate HistoryInv(s: State) {
    && Legal(s.history)
    && forall key: Key :: Stored(s.table, key) == LastOf(s.history, key)
  }

  /** Every issued nonce has at most one recipient. */
  ghost predicate AnswerInv(s: State) {
    && (forall p: nat :: PhaseOf(s, p).Holding? ==>
          var i := PhaseOf(s, p).event;
          i < |s.history| && s.history[i].job.Issue? && i !in s.returned && i !in s.burnt)
    && (forall p: nat, q: nat :: p != q && PhaseOf(s, p).Holding? && PhaseOf(s, q).Holding? ==>
          PhaseOf(s, p).event != PhaseOf(s, q).event)
    && (forall i :: i in s.returned ==> i < |s.history| && Answerable(s.history[i]) && i !in s.burnt)
    && (forall i :: i in s.burnt ==> i < |s.history| && s.history[i].job.Issue? && !Answerable(s.history[i]))
  }

  /** The server's last nonce is the last it stored, and not above the local one. */
  ghost predicate LastInv(s: State) {
    forall key: Key ::
      && Stored(s.serverLast, key) <= LastOf(s.history, key)
      && (Stored(s.serverLast, key) == 0 || Message(key, Stored(s.serverLast, key)) in s.messages)
  }

  ghost predicate OrderInv(s: State) {
    && (forall m :: 0 <= m < |s.messages| ==> s.messages[m].nonce <= Stored(s.serverLast, s.messages[m].key))
    && (forall m, n :: 0 <= m < n < |s.messages| && s.messages[m].key == s.messages[n].key ==>
          s.messages[m].nonce < s.messages[n].nonce)
  }

  ghost predicate SentInv(s: State) {
    forall m :: 0 <= m < |s.messages| ==> Sent(s, s.messages[m])
  }

  ghost predicate ServerInv(s: State) {
    LastInv(s) && OrderInv(s) && SentInv(s)
  }

  /** The message carries a nonce that some caller was given. */
  ghost predicate Sent(s: State, m: Message) {
    exists i :: i in s.returned && i < |s.history| && s.history[i].job.key == m.key && s.history[i].value == m.nonce
  }

  ghost predicate Inv(s: State) {
    LockInv(s) && JobInv(s) && HistoryInv(s) && AnswerInv(s) && ServerInv(s)
  }

  /** A step of one process leaves every other process where it was. */
  lemma StepMovesOne(s: State, step: Step)
    requires Enabled(s, step)
    ensures step.Deliver? ==> forall q: nat :: PhaseOf(After(s, step), q) == PhaseOf(s, q)
    ensures !step.Deliver? ==> forall q: nat :: q != step.p ==> PhaseOf(After(s, step), q) == PhaseOf(s, q)
  {
  }

  lemma StepKeepsLock(s: State, step: Step)
    requires LockInv(s) && Enabled(s, step)
    ensures LockInv(After(s, step))
  {
    StepMovesOne(s, step);
    match step {
      case Write(p) => WriteKeepsLock(s, p);
      case Commit(p) => assert Locking(PhaseOf(s, p));
      case _ =>
    }
  }

  lemma WriteKeepsLock(s: State, p: nat)
    requires LockInv(s) && Enabled(s, Write(p))
    ensures LockInv(After(s, Write(p)))
  {
    StepMovesOne(s, Write(p));
    assert Locking(PhaseOf(s, p));
  }

  lemma StepKeepsJobs(s: State, step: Step)
    requires JobInv(s) && Enabled(s, step)
    ensures JobInv(After(s, step))
  {
    StepMovesOne(s, step);
    match step {
      case Start(p, job) =>
      case Announce(p, key, chosen) =>
      case Begin(p) =>
      case Read(p) =>
      case Write(p) =>
      case Commit(p) =>
      case Stop(p) =>
      case Answer(p) =>
      case Deliver(event) =>
    }
  }

  /** What a commit adds to the history is what one undisturbed call would have done to the table. */
  lemma CommitIsLegal(s: State, p: nat)
    requires LockInv(s) && JobInv(s) && HistoryInv(s) && Enabled(s, Commit(p))
    ensures EventOk(s.history, Event(PhaseOf(s, p).job, PhaseOf(s, p).value))
    ensures HistoryInv(After(s, Commit(p)))
  {
    var e := Event(PhaseOf(s, p).job, PhaseOf(s, p).value);
    assert Locking(PhaseOf(s, p));
    LegalExtends(s.history, e);
    forall key: Key ensures Stored(s.pending, key) == LastOf(s.history + [e], key) {
      LastOfExtends(s.history, e, key);
    }
  }

  lemma StepKeepsHistory(s: State, step: Step)
    requires LockInv(s) && JobInv(s) && HistoryInv(s) && Enabled(s, step)
    ensures HistoryInv(After(s, step))
    ensures s.history <= After(s, step).history
  {
    if step.Commit? {
      CommitIsLegal(s, step.p);
    }
  }

  lemma CommitKeepsAnswers(s: State, p: nat)
    requires AnswerInv(s) && Enabled(s, Commit(p))
    ensures AnswerInv(After(s, Commit(p)))
  {
    StepMovesOne(s, Commit(p));
  }

  lemma AnswerKeepsAnswers(s: State, p: nat)
    requires AnswerInv(s) && Enabled(s, Answer(p))
    ensures AnswerInv(After(s, Answer(p)))
  {
    StepMovesOne(s, Answer(p));
  }

  lemma StepKeepsAnswers(s: State, step: Step)
    requires AnswerInv(s) && Enabled(s, step)
    ensures AnswerInv(After(s, step))
  {
    match step {
      case Commit(p) => CommitKeepsAnswers(s, p);
      case Answer(p) => AnswerKeepsAnswers(s, p);
      case _ => StepMovesOne(s, step);
    }
  }

  lemma ReceiveKeepsLast(s: State, key: Key, nonce: nat)
    requires LastInv(s) && nonce <= LastOf(s.history, key)
    ensures LastInv(Receive(s, key, nonce))
  {
    var t := Receive(s, key, nonce);
    if nonce > Stored(s.serverLast, key) {
      assert t.messages[|s.messages|] == Message(key, nonce);
    }
  }

  lemma ReceiveKeepsOrder(s: State, key: Key, nonce: nat)
    requires OrderInv(s)
    ensures OrderInv(Receive(s, key, nonce))
  {
  }

  lemma ReceiveKeepsSent(s: State, i: nat)
    requires SentInv(s) && i in s.returned && i < |s.history|
    ensures SentInv(Receive(s, s.history[i].job.key, s.history[i].value))
  {
    var t := Receive(s, s.history[i].job.key, s.history[i].value);
    forall m | 0 <= m < |t.messages| ensures Sent(t, t.messages[m]) {
      if m < |s.messages| {
        assert Sent(s, s.messages[m]);
      } else {
        assert s.history[i].job.key == t.messages[m].key;
      }
    }
  }

  // ----- facts about legal histories --------------------------------------------------------------

  /** Values never fall: what an event left is below or at what any longer history leaves. */
  lemma {:induction false} LastOfGrows(h: seq<Event>, i: nat, n: nat)
    requires Legal(h) && i < n <= |h|
    ensures h[i].value <= LastOf(h[..n], h[i].job.key)
    decreases n
  {
    assert h[..n][..n - 1] == h[..n - 1];
    if i < n - 1 {
      LastOfGrows(h, i, n - 1);
      assert EventOk(h[..n - 1], h[n - 1]);
    }
  }

  /** Issued nonces exceed every earlier nonce and observation for their key, their own floor, and nothing
      is ever stored above 2**63 - 1. */
  lemma IssuedExceedsEarlier(h: seq<Event>, i: nat, j: nat)
    requires Legal(h) && i < j < |h| && h[i].job.key == h[j].job.key && h[j].job.Issue?
    ensures h[i].value < h[j].value <= MAX_STORABLE_NONCE
    ensures h[i].job.Watch? ==> h[i].job.seen < h[j].value
    ensures h[j].job.floor < h[j].value
  {
    LastOfGrows(h, i, j);
    assert EventOk(h[..j], h[j]) && EventOk(h[..i], h[i]);
  }

  /** The issued nonces of a key, in commit order. */
  function IssuedFor(h: seq<Event>, key: Key): seq<nat> {
    if h == [] then []
    else
      var e := h[|h| - 1];
      IssuedFor(h[..|h| - 1], key) + if e.job.Issue? && e.job.key == key then [e.value] else []
  }

  /** The key was only ever issued from, with floor zero. */
  predicate PlainFor(h: seq<Event>, key: Key) {
    forall i :: 0 <= i < |h| && h[i].job.key == key ==> h[i].job.Issue? && h[i].job.floor == 0
  }

  /** With floor zero and no observation, the nonces of a key are exactly 1..k. */
  lemma {:induction false} PlainNoncesCount(h: seq<Event>, key: Key)
    requires Legal(h) && PlainFor(h, key)
    ensures IssuedFor(h, key) == seq(LastOf(h, key), i => i + 1)
    decreases |h|
  {
    if h != [] {
      var front := h[..|h| - 1];
      assert forall j :: 0 <= j < |front| ==> front[j] == h[j] && front[..j] == h[..j];
      PlainNoncesCount(front, key);
      assert EventOk(front, h[|h| - 1]);
    }
  }

  // ----- whole runs -------------------------------------------------------------------------------

  lemma StepKeepsServer(s: State, step: Step)
    requires Inv(s) && Enabled(s, step)
    ensures ServerInv(After(s, step))
  {
    match step {
      case Commit(p) =>
        CommitKeepsServer(s, p);
      case Deliver(i) =>
        LastOfGrows(s.history, i, |s.history|);
        assert s.history[..|s.history|] == s.history;
        ReceiveKeepsLast(s, s.history[i].job.key, s.history[i].value);
        ReceiveKeepsOrder(s, s.history[i].job.key, s.history[i].value);
        ReceiveKeepsSent(s, i);
      case _ =>
        StepLeavesServer(s, step);
    }
  }

  /** A longer history and more answered calls take nothing from what was sent. */
  lemma SentGrows(s: State, t: State)
    requires SentInv(s) && s.history <= t.history && s.returned <= t.returned && s.messages == t.messages
    ensures SentInv(t)
  {
    forall m | 0 <= m < |t.messages| ensures Sent(t, t.messages[m]) {
      assert Sent(s, s.messages[m]);
      var i :| i in s.returned && i < |s.history| && s.history[i].job.key == s.messages[m].key &&
               s.history[i].value == s.messages[m].nonce;
      assert t.history[i] == s.history[i];
    }
  }

  lemma CommitKeepsServer(s: State, p: nat)
    requires Inv(s) && Enabled(s, Commit(p))
    ensures ServerInv(After(s, Commit(p)))
  {
    var t := After(s, Commit(p));
    CommitKeepsLast(s, p);
    SentGrows(s, t);
  }

  lemma CommitKeepsLast(s: State, p: nat)
    requires LockInv(s) && JobInv(s) && HistoryInv(s) && LastInv(s) && Enabled(s, Commit(p))
    ensures LastInv(After(s, Commit(p)))
  {
    var t, e := After(s, Commit(p)), Event(PhaseOf(s, p).job, PhaseOf(s, p).value);
    CommitIsLegal(s, p);
    forall key: Key ensures Stored(t.serverLast, key) <= LastOf(t.history, key) {
      LastOfExtends(s.history, e, key);
    }
  }

  lemma StepLeavesServer(s: State, step: Step)
    requires ServerInv(s) && Enabled(s, step) && !step.Commit? && !step.Deliver?
    ensures ServerInv(After(s, step))
  {
    SentGrows(s, After(s, step));
  }

  lemma StepKeepsInv(s: State, step: Step)
    requires Inv(s) && Enabled(s, step)
    ensures Inv(After(s, step)) && s.history <= After(s, step).history
  {
    StepKeepsLock(s, step);
    StepKeepsJobs(s, step);
    StepKeepsHistory(s, step);
    StepKeepsAnswers(s, step);
    StepKeepsServer(s, step);
  }

  lemma {:induction false} RunKeepsInv(s: State, steps: seq<Step>)
    requires Inv(s) && Run(s, steps).Some?
    ensures Inv(Run(s, steps).value) && s.history <= Run(s, steps).value.history
    decreases |steps|
  {
    if steps != [] {
      StepKeepsInv(s, steps[0]);
      RunKeepsInv(After(s, steps[0]), steps[1..]);
    }
  }

  ghost predicate Reachable(s: State) {
    exists init, steps :: Init(init) && Run(init, steps) == Some(s)
  }

  lemma ReachableInv(s: State)
    requires Reachable(s)
    ensures Inv(s)
  {
    var init, steps :| Init(init) && Run(init, steps) == Some(s);
    RunKeepsInv(init, steps);
  }

  /** In every interleaving, with failures at any point, the nonces issued for a key strictly increase in
      commit order, exceed their floor and every observation committed before them, never pass 2**63 - 1 and
      so have at most nineteen digits, and with floor zero and no observation are exactly 1..k; the table
      holds the last of them. */
  lemma NoncesOverRuns(s: State)
    requires Reachable(s)
    ensures forall i, j | 0 <= i < j < |s.history| && s.history[i].job.key == s.history[j].job.key ::
              s.history[j].job.Issue? ==>
              && s.history[i].value < s.history[j].value
              && (s.history[i].job.Watch? ==> s.history[i].job.seen < s.history[j].value)
    ensures forall j :: 0 <= j < |s.history| ==> s.history[j].value <= 9_223_372_036_854_775_807
    ensures forall j :: 0 <= j < |s.history| && s.history[j].job.Issue? ==>
              s.history[j].job.floor < s.history[j].value && Payload.ValidNonce(s.history[j].value)
    ensures forall key: Key :: PlainFor(s.history, key) ==>
              IssuedFor(s.history, key) == seq(Stored(s.table, key), i => i + 1)
  {
    ReachableInv(s);
    forall i, j | 0 <= i < j < |s.history| && s.history[i].job.key == s.history[j].job.key && s.history[j].job.Issue?
      ensures s.history[i].value < s.history[j].value
      ensures s.history[i].job.Watch? ==> s.history[i].job.seen < s.history[j].value
    {
      IssuedExceedsEarlier(s.history, i, j);
    }
    forall j | 0 <= j < |s.history| ensures s.history[j].value <= MAX_STORABLE_NONCE {
      assert EventOk(s.history[..j], s.history[j]);
    }
    forall j | 0 <= j < |s.history| && s.history[j].job.Issue?
      ensures s.history[j].job.floor < s.history[j].value && Payload.ValidNonce(s.history[j].value)
    {
      assert EventOk(s.history[..j], s.history[j]);
      StorableNoncesAreValid(s.history[j].value);
    }
    forall key: Key | PlainFor(s.history, key)
      ensures IssuedFor(s.history, key) == seq(Stored(s.table, key), i => i + 1)
    {
      PlainNoncesCount(s.history, key);
    }
  }

  /** In every interleaving, although `current` is read without the lock: an explicit announcement that
      is answered gets the nonce it asked for, no two answered calls for one key get the same nonce, and
      the burnt nonce of a raced call is never handed to anyone. */
  lemma AnnouncementsOverRuns(s: State, i: nat, j: nat)
    requires Reachable(s)
    requires i in s.returned && i < |s.history|
    ensures s.history[i].job.Issue?
    ensures s.history[i].job.want.Some? ==> s.history[i].value == s.history[i].job.want.value
    ensures j in s.returned + s.burnt && j != i && j < |s.history| && s.history[j].job.key == s.history[i].job.key ==>
              s.history[j].value != s.history[i].value
    ensures i !in s.burnt
  {
    ReachableInv(s);
    if j in s.returned + s.burnt && j != i && j < |s.history| && s.history[j].job.key == s.history[i].job.key {
      if i < j {
        IssuedExceedsEarlier(s.history, i, j);
      } else {
        IssuedExceedsEarlier(s.history, j, i);
      }
    }
  }

  /** Whatever the order, loss and repetition of deliveries: the server's last nonce never exceeds the
      stored local one, messages carry only nonces that were handed out, no nonce is stored twice for a
      key, and stored nonces increase with `seq`. */
  lemma ServerOverRuns(s: State, key: Key)
    requires Reachable(s)
    ensures Stored(s.serverLast, key) <= Stored(s.table, key)
    ensures forall m, n :: 0 <= m < n < |s.messages| && s.messages[m].key == s.messages[n].key ==>
              s.messages[m].nonce < s.messages[n].nonce
    ensures forall m :: 0 <= m < |s.messages| ==> Sent(s, s.messages[m])
  {
    ReachableInv(s);
  }

  /** This nonce of the key, or one handed out later, has been stored. */
  ghost predicate StoredSince(s: State, i: nat, j: nat)
    requires i < |s.history|
  {
    i <= j < |s.history| && j in s.returned && s.history[j].job.key == s.history[i].job.key &&
    Message(s.history[i].job.key, s.history[j].value) in s.messages
  }

  /** The message behind the server's last nonce, if that is not below this one. */
  lemma OvertakenBy(s: State, i: nat) returns (j: nat)
    requires Reachable(s) && i in s.returned && i < |s.history|
    requires s.history[i].value <= Stored(s.serverLast, s.history[i].job.key)
    ensures StoredSince(s, i, j)
  {
    ReachableInv(s);
    var (key, nonce) := (s.history[i].job.key, s.history[i].value);
    var last := Stored(s.serverLast, key);
    assert EventOk(s.history[..i], s.history[i]);
    var m :| 0 <= m < |s.messages| && s.messages[m] == Message(key, last);
    assert Sent(s, s.messages[m]);
    j :| j in s.returned && j < |s.history| && s.history[j].job.key == key && s.history[j].value == last;
    if j < i {
      IssuedExceedsEarlier(s.history, j, i);
    }
  }

  lemma LaterIsLarger(s: State, i: nat, j: nat)
    requires Reachable(s) && i in s.returned && i < |s.history| && StoredSince(s, i, j)
    ensures s.history[i].value <= s.history[j].value <= Stored(s.serverLast, s.history[i].job.key)
  {
    ReachableInv(s);
    if i < j {
      IssuedExceedsEarlier(s.history, i, j);
    }
  }

  /** A nonce that was handed out passes the server's check exactly until it, or one handed out later for
      the same key, has been stored there. */
  lemma FreshNoncePasses(s: State, i: nat)
    requires Reachable(s) && i in s.returned && i < |s.history|
    ensures var (key, nonce) := (s.history[i].job.key, s.history[i].value);
            nonce > Stored(s.serverLast, key) <==>
              !exists j :: i <= j < |s.history| && j in s.returned && s.history[j].job.key == key &&
                Message(key, s.history[j].value) in s.messages
  {
    var key := s.history[i].job.key;
    if s.history[i].value <= Stored(s.serverLast, key) {
      var j := OvertakenBy(s, i);
      assert s.history[j].job.key == key && Message(key, s.history[j].value) in s.messages;
    }
    if j: nat :| i <= j < |s.history| && j in s.returned && s.history[j].job.key == key &&
                 Message(key, s.history[j].value) in s.messages
    {
      assert StoredSince(s, i, j);
      LaterIsLarger(s, i, j);
    }
  }
}
