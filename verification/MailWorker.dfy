/** The mail queue: enqueuers, one worker and one stop, in any interleaving; and the attempts of one job
    (services/mailWorker.go). */
module MailWorker {
  // ----- one job

  datatype Outcome = Delivered | Unconfirmed | PartlyDelivered | Failed | Panicked

  /** `outcome` is what sending this mail leads to. */
  datatype Attempt = Attempt(key: string, outcome: Outcome)

  /** The mail reached someone, or probably did. */
  predicate CountsAsSent(a: Attempt) {
    a.outcome in {Delivered, Unconfirmed, PartlyDelivered}
  }

  /** An attempt is reported unless the server confirmed it. */
  predicate IsReported(a: Attempt) {
    a.outcome != Delivered
  }

  /** Attempt `i` is made: no earlier attempt with its key went out. */
  predicate IsMade(attempts: seq<Attempt>, i: nat)
    requires i < |attempts|
  {
    attempts[i].key == "" || forall j :: 0 <= j < i && attempts[j].key == attempts[i].key ==> !CountsAsSent(attempts[j])
  }

  function Made(attempts: seq<Attempt>, n: nat): seq<nat>
    requires n <= |attempts|
  {
    if n == 0 then [] else Made(attempts, n - 1) + if IsMade(attempts, n - 1) then [n - 1] else []
  }

  function Reported(attempts: seq<Attempt>, n: nat): seq<nat>
    requires n <= |attempts|
  {
    if n == 0 then []
    else Reported(attempts, n - 1) + if IsMade(attempts, n - 1) && IsReported(attempts[n - 1]) then [n - 1] else []
  }

  /** MailJob.run and attempt: which attempts are made, and which of them are reported. */
  method RunJob(attempts: seq<Attempt>) returns (made: seq<nat>, reported: seq<nat>)
    ensures made == Made(attempts, |attempts|) && reported == Reported(attempts, |attempts|)
    ensures AreTried(attempts, made, reported)
  {
    made, reported := [], [];
    var sent: set<string> := {};
    for i := 0 to |attempts|
      invariant made == Made(attempts, i) && reported == Reported(attempts, i)
      invariant forall key :: key != "" ==> (key in sent <==> SentBefore(attempts, i, key))
    {
      var a := attempts[i];
      forall key {
        SentStep(attempts, i, key);
      }
      if a.key != "" && a.key in sent {
        continue;
      }
      made := made + [i];
      if IsReported(a) {
        reported := reported + [i];
      }
      if CountsAsSent(a) {
        sent := sent + {a.key};
      }
    }
    RunMeans(attempts, made, reported);
  }

  /** An attempt without a key is always made, one with a key while every earlier one with it failed or panicked. */
  predicate IsTried(attempts: seq<Attempt>, i: nat)
    requires i < |attempts|
  {
    attempts[i].key == "" || forall j :: 0 <= j < i && attempts[j].key == attempts[i].key ==>
      attempts[j].outcome in {Failed, Panicked}
  }

  predicate Rising(s: seq<nat>) {
    forall i, j :: 0 <= i < j < |s| ==> s[i] < s[j]
  }

  /** Made are exactly these attempts, in their order, and reported those of them that the server did not confirm. */
  ghost predicate AreTried(attempts: seq<Attempt>, made: seq<nat>, reported: seq<nat>) {
    && Rising(made) && Rising(reported)
    && (forall i: nat :: i in made <==> i < |attempts| && IsTried(attempts, i))
    && (forall i: nat :: i in reported <==> i in made && i < |attempts| && IsToReport(attempts[i]))
  }

  predicate IsToReport(a: Attempt) {
    a.outcome in {Unconfirmed, PartlyDelivered, Failed, Panicked}
  }

  lemma OutcomesMean(a: Attempt)
    ensures (!CountsAsSent(a) <==> a.outcome in {Failed, Panicked}) && (IsReported(a) <==> IsToReport(a))
  {
    match a.outcome
    case Delivered =>
    case Unconfirmed =>
    case PartlyDelivered =>
    case Failed =>
    case Panicked =>
  }

  lemma MadeIsTried(attempts: seq<Attempt>, i: nat)
    requires i < |attempts|
    ensures IsMade(attempts, i) <==> IsTried(attempts, i)
  {
    forall j | 0 <= j < i
      ensures !CountsAsSent(attempts[j]) <==> attempts[j].outcome in {Failed, Panicked}
    {
      OutcomesMean(attempts[j]);
    }
  }

  lemma RunMeans(attempts: seq<Attempt>, made: seq<nat>, reported: seq<nat>)
    requires made == Made(attempts, |attempts|) && reported == Reported(attempts, |attempts|)
    ensures AreTried(attempts, made, reported)
  {
    MadeRise(attempts, |attempts|);
    forall i: nat
      ensures i in made <==> i < |attempts| && IsTried(attempts, i)
      ensures i in reported <==> i in made && i < |attempts| && IsToReport(attempts[i])
    {
      MadeMembers(attempts, |attempts|, i);
      ReportedMembers(attempts, |attempts|, i);
      if i < |attempts| {
        MadeIsTried(attempts, i);
        OutcomesMean(attempts[i]);
      }
    }
  }

  lemma {:induction false} ReportedMembers(attempts: seq<Attempt>, n: nat, i: nat)
    requires n <= |attempts|
    ensures i in Reported(attempts, n) <==> i < n && IsMade(attempts, i) && IsReported(attempts[i])
  {
    if n > 0 {
      ReportedMembers(attempts, n - 1, i);
    }
  }

  lemma {:induction false} MadeRise(attempts: seq<Attempt>, n: nat)
    requires n <= |attempts|
    ensures Rising(Made(attempts, n)) && Rising(Reported(attempts, n))
    ensures forall i :: 0 <= i < |Made(attempts, n)| ==> Made(attempts, n)[i] < n
    ensures forall i :: 0 <= i < |Reported(attempts, n)| ==> Reported(attempts, n)[i] < n
  {
    if n > 0 {
      MadeRise(attempts, n - 1);
    }
  }

  predicate SentBefore(attempts: seq<Attempt>, n: nat, key: string)
    requires n <= |attempts|
  {
    exists j :: 0 <= j < n && attempts[j].key == key && CountsAsSent(attempts[j])
  }

  lemma SentStep(attempts: seq<Attempt>, i: nat, key: string)
    requires i < |attempts|
    ensures SentBefore(attempts, i + 1, key) <==>
            SentBefore(attempts, i, key) || (attempts[i].key == key && CountsAsSent(attempts[i]))
    ensures attempts[i].key != "" ==> (IsMade(attempts, i) <==> !SentBefore(attempts, i, attempts[i].key))
  {
  }

  lemma {:induction false} MadeMembers(attempts: seq<Attempt>, n: nat, i: nat)
    requires n <= |attempts|
    ensures i in Made(attempts, n) <==> i < n && IsMade(attempts, i)
  {
    if n > 0 {
      MadeMembers(attempts, n - 1, i);
    }
  }

  /** Nobody gets a mail twice: of the attempts with one key at most one that was made counts as sent; and nobody is left
      out: the first that can go out is made. */
  lemma SentOncePerKey(attempts: seq<Attempt>, i: nat, j: nat)
    requires i < j < |attempts| && attempts[i].key == attempts[j].key != ""
    ensures !(i in Made(attempts, |attempts|) && CountsAsSent(attempts[i]) && j in Made(attempts, |attempts|)
            && CountsAsSent(attempts[j]))
    ensures CountsAsSent(attempts[j]) &&
            (forall k :: 0 <= k < j && attempts[k].key == attempts[j].key ==> !CountsAsSent(attempts[k])) ==>
              j in Made(attempts, |attempts|)
  {
    MadeMembers(attempts, |attempts|, i);
    MadeMembers(attempts, |attempts|, j);
  }

  // ----- the queue

  /** A call of Enqueue: it holds the read lock and saw the queue open; it was turned away and still has to report; it
      put its job on the queue; it reported its job. */
  datatype Call = Holding | TurnedAway | Queued | Refused

  datatype Worker = Idle | Running(job: int) | Exited

  /** Stop waits for the worker, takes the jobs left one by one, has counted what was not sent, has returned the count. */
  datatype Stop = NotCalled | Waiting | Draining | Has(job: int) | Counted(notSent: nat) | Returned(notSent: nat)

  datatype Taker = ByWorker | ByStop

  /** A job taken from the queue, and by whom. */
  datatype Taken = Taken(job: int, taker: Taker)

  /** Jobs go by the number of their call. `queued` are all jobs ever put on the queue, `taken` those received from it, in
      order; `ran` the jobs the worker finished, `reported` those Stop reported, `dropped` the one it had when its report
      time was over. */
  datatype State = State(size: nat, queue: seq<int>, closed: bool, calls: map<int, Call>, worker: Worker, stop: Stop,
                         queued: seq<int>, taken: seq<Taken>, ran: seq<int>, reported: seq<int>, dropped: seq<int>)

  /** tryQueue takes the read lock: closed turns the call away. */
  predicate Begin(s: State, t: State, c: int) {
    c !in s.calls && t == s.(calls := s.calls[c := if s.closed then TurnedAway else Holding])
  }

  /** The non-blocking send, still under the read lock. */
  predicate Put(s: State, t: State, c: int) {
    && c in s.calls && s.calls[c].Holding?
    && t == if |s.queue| < s.size
            then s.(queue := s.queue + [c], queued := s.queued + [c], calls := s.calls[c := Queued])
            else s.(calls := s.calls[c := TurnedAway])
  }

  predicate Refuse(s: State, t: State, c: int) {
    c in s.calls && s.calls[c].TurnedAway? && t == s.(calls := s.calls[c := Refused])
  }

  function Received(s: State, by': Taker): State
    requires s.queue != []
  {
    s.(queue := s.queue[1..], taken := s.taken + [Taken(s.queue[0], by')])
  }

  predicate Take(s: State, t: State) {
    s.worker.Idle? && s.queue != [] && t == Received(s, ByWorker).(worker := Running(s.queue[0]))
  }

  predicate Finish(s: State, t: State) {
    s.worker.Running? && t == s.(worker := Idle, ran := s.ran + [s.worker.job])
  }

  /** The worker's range loop ends when the queue is closed and empty. */
  predicate Exit(s: State, t: State) {
    s.worker.Idle? && s.closed && s.queue == [] && t == s.(worker := Exited)
  }

  predicate NobodyHolds(s: State) {
    forall c <- s.calls :: !s.calls[c].Holding?
  }

  /** Stop takes the write lock, so no enqueuer is between its check and its send. */
  predicate Close(s: State, t: State) {
    s.stop.NotCalled? && NobodyHolds(s) && t == s.(closed := true, stop := Waiting)
  }

  predicate DoneInTime(s: State, t: State) {
    s.stop.Waiting? && s.worker.Exited? && t == s.(stop := Counted(0))
  }

  predicate TimeOut(s: State, t: State) {
    s.stop.Waiting? && t == s.(stop := Draining)
  }

  predicate StopTakes(s: State, t: State) {
    s.stop.Draining? && s.queue != [] && t == Received(s, ByStop).(stop := Has(s.queue[0]))
  }

  predicate Report(s: State, t: State) {
    s.stop.Has? && t == s.(stop := Draining, reported := s.reported + [s.stop.job])
  }

  /** The report time is over: the job just received and what is on the queue at this moment count as not sent. */
  predicate CountRest(s: State, t: State) {
    s.stop.Has? && t == s.(stop := Counted(|s.reported| + 1 + |s.queue|), dropped := [s.stop.job])
  }

  predicate Drained(s: State, t: State) {
    s.stop.Draining? && s.queue == [] && t == s.(stop := Counted(|s.reported|))
  }

  predicate Return(s: State, t: State) {
    s.stop.Counted? && t == s.(stop := Returned(s.stop.notSent))
  }

  predicate StopStep(s: State, t: State) {
    || Close(s, t) || DoneInTime(s, t) || TimeOut(s, t) || StopTakes(s, t) || Report(s, t) || CountRest(s, t) || Drained(s, t)
    || Return(s, t)
  }

  ghost predicate Step(s: State, t: State) {
    || (exists c :: Begin(s, t, c)) || (exists c :: Put(s, t, c)) || (exists c :: Refuse(s, t, c))
    || Take(s, t) || Finish(s, t) || Exit(s, t) || StopStep(s, t)
  }

  predicate Init(s: State) {
    s == State(s.size, [], false, map[], Idle, NotCalled, [], [], [], [], [])
  }

  // ----- the invariant

  function JobsOf(taken: seq<Taken>): (r: seq<int>)
    ensures |r| == |taken| && forall i :: 0 <= i < |r| ==> r[i] == taken[i].job
  {
    seq(|taken|, i requires 0 <= i < |taken| => taken[i].job)
  }

  /** The jobs one of them took, in order. */
  function TakenBy(taken: seq<Taken>, who: Taker): seq<int> {
    if taken == [] then []
    else
      var last := taken[|taken| - 1];
      TakenBy(taken[..|taken| - 1], who) + if last.taker == who then [last.job] else []
  }

  lemma TakenSnoc(taken: seq<Taken>, x: Taken, who: Taker)
    ensures TakenBy(taken + [x], who) == TakenBy(taken, who) + if x.taker == who then [x.job] else []
  {
    assert (taken + [x])[..|taken|] == taken;
  }

  function InHand(w: Worker): seq<int> {
    if w.Running? then [w.job] else []
  }

  function WithStop(s: Stop): seq<int> {
    if s.Has? then [s.job] else []
  }

  predicate HasCounted(s: Stop) {
    s.Counted? || s.Returned?
  }

  predicate Distinct(s: seq<int>) {
    forall i, j :: 0 <= i < j < |s| ==> s[i] != s[j]
  }

  /** What was put on the queue is what was taken from it, in this order, and what is still on it; the worker ran what it
      took; each queued call put its job there once. */
  ghost predicate Inv(s: State) {
    && s.queued == JobsOf(s.taken) + s.queue && CallsQueued(s.queued, s.calls)
    && TakenBy(s.taken, ByWorker) == s.ran + InHand(s.worker)
    && (s.closed <==> !s.stop.NotCalled?)
    && (s.closed ==> NobodyHolds(s))
    && (s.worker.Exited? ==> s.closed && s.queue == [])
    && TakenBy(s.taken, ByStop) == s.reported + WithStop(s.stop) + s.dropped
    && (s.stop.NotCalled? || s.stop.Waiting? ==> s.reported == [])
    && (!HasCounted(s.stop) ==> s.dropped == [])
  }

  lemma ReceivedJobs(s: State, who: Taker)
    requires s.queue != [] && s.queued == JobsOf(s.taken) + s.queue
    ensures var t := Received(s, who);
            t.queued == JobsOf(t.taken) + t.queue
              && forall w :: TakenBy(t.taken, w) == TakenBy(s.taken, w) + if w == who then [s.queue[0]] else []
  {
    var t := Received(s, who);
    assert JobsOf(t.taken) == JobsOf(s.taken) + [s.queue[0]];
    assert s.queue == [s.queue[0]] + t.queue;
    forall w
      ensures TakenBy(t.taken, w) == TakenBy(s.taken, w) + if w == who then [s.queue[0]] else []
    {
      TakenSnoc(s.taken, Taken(s.queue[0], who), w);
    }
  }

  /** Calls whose job is on the queue, by then. */
  ghost predicate CallsQueued(queued: seq<int>, calls: map<int, Call>) {
    Distinct(queued) && forall c :: c in queued <==> c in calls && calls[c].Queued?
  }

  lemma CallsQueuedSnoc(queued: seq<int>, calls: map<int, Call>, c: int)
    requires CallsQueued(queued, calls) && c in calls && !calls[c].Queued?
    ensures CallsQueued(queued + [c], calls[c := Queued])
  {
    assert c !in queued;
    assert forall i :: 0 <= i < |queued| ==> queued[i] in queued;
    forall d
      ensures d in queued + [c] <==> d in calls[c := Queued] && calls[c := Queued][d].Queued?
    {
      assert d in queued + [c] <==> d in queued || d == c;
    }
  }

  lemma PutKeeps(s: State, t: State, c: int)
    requires Inv(s) && Put(s, t, c)
    ensures Inv(t)
  {
    if |s.queue| < s.size {
      CallsQueuedSnoc(s.queued, s.calls, c);
      assert (JobsOf(s.taken) + s.queue) + [c] == JobsOf(s.taken) + (s.queue + [c]);
    }
  }

  lemma CallStepKeeps(s: State, t: State, c: int)
    requires Inv(s) && (Begin(s, t, c) || Put(s, t, c) || Refuse(s, t, c))
    ensures Inv(t)
  {
    if Put(s, t, c) {
      PutKeeps(s, t, c);
    }
  }

  lemma WorkerStepKeeps(s: State, t: State)
    requires Inv(s) && (Take(s, t) || Finish(s, t) || Exit(s, t))
    ensures Inv(t)
  {
    if Take(s, t) {
      ReceivedJobs(s, ByWorker);
    } else if Finish(s, t) {
      assert t.ran + InHand(t.worker) == s.ran + InHand(s.worker);
    }
  }

  /** The job Stop has is reported or dropped. */
  lemma JobInHandKeeps(s: State, t: State)
    requires Inv(s) && (Report(s, t) || CountRest(s, t))
    ensures Inv(t)
  {
    assert s.dropped == [];
    assert s.reported + [s.stop.job] + [] == s.reported + [] + [s.stop.job];
    assert t.reported + WithStop(t.stop) + t.dropped == s.reported + WithStop(s.stop) + s.dropped;
  }

  lemma StopTakesKeeps(s: State, t: State)
    requires Inv(s) && StopTakes(s, t)
    ensures Inv(t)
  {
    ReceivedJobs(s, ByStop);
    assert s.dropped == [] && TakenBy(t.taken, ByStop) == TakenBy(s.taken, ByStop) + [s.queue[0]];
  }

  /** Steps that take no job. */
  lemma WaitStepKeeps(s: State, t: State)
    requires Inv(s) && (Close(s, t) || DoneInTime(s, t) || TimeOut(s, t) || Drained(s, t) || Return(s, t))
    ensures Inv(t)
  {
  }

  lemma StopStepKeeps(s: State, t: State)
    requires Inv(s) && StopStep(s, t)
    ensures Inv(t)
  {
    if StopTakes(s, t) {
      StopTakesKeeps(s, t);
    } else if Report(s, t) || CountRest(s, t) {
      JobInHandKeeps(s, t);
    } else {
      WaitStepKeeps(s, t);
    }
  }

  lemma StepKeeps(s: State, t: State)
    requires Inv(s) && Step(s, t)
    ensures Inv(t)
  {
    if c :| Begin(s, t, c) || Put(s, t, c) || Refuse(s, t, c) {
      CallStepKeeps(s, t, c);
    } else if Take(s, t) || Finish(s, t) || Exit(s, t) {
      WorkerStepKeeps(s, t);
    } else {
      StopStepKeeps(s, t);
    }
  }

  ghost predicate IsTrace(trace: seq<State>) {
    trace != [] && Init(trace[0]) && forall i :: 0 <= i < |trace| - 1 ==> Step(trace[i], trace[i + 1])
  }

  lemma {:induction false} InvAlways(trace: seq<State>, n: nat)
    requires IsTrace(trace) && n < |trace|
    ensures Inv(trace[n])
  {
    if n == 0 {
      assert JobsOf([]) == [];
    } else {
      InvAlways(trace, n - 1);
      assert Step(trace[n - 1], trace[n - 1 + 1]);
      StepKeeps(trace[n - 1], trace[n]);
    }
  }

  // ----- what becomes of a job

  lemma {:induction false} OnceInDistinct(s: seq<int>, x: int)
    requires Distinct(s)
    ensures multiset(s)[x] == if x in s then 1 else 0
  {
    if s != [] {
      OnceInDistinct(s[..|s| - 1], x);
      assert s == s[..|s| - 1] + [s[|s| - 1]];
    }
  }

  lemma JobsSnoc(taken: seq<Taken>)
    requires taken != []
    ensures JobsOf(taken) == JobsOf(taken[..|taken| - 1]) + [taken[|taken| - 1].job]
  {
  }

  lemma TakenAlso(taken: seq<Taken>, who: Taker, x: int)
    requires taken != []
    ensures var init, last := taken[..|taken| - 1], taken[|taken| - 1];
            multiset(TakenBy(taken, who))[x] ==
            multiset(TakenBy(init, who))[x] + if last.taker == who && last.job == x then 1 else 0
  {
    var earlier, last := TakenBy(taken[..|taken| - 1], who), taken[|taken| - 1];
    assert TakenBy(taken, who) == if last.taker == who then earlier + [last.job] else earlier;
  }

  lemma {:induction false} TakenSplit(taken: seq<Taken>, x: int)
    ensures multiset(JobsOf(taken))[x] ==
            multiset(TakenBy(taken, ByWorker))[x] + multiset(TakenBy(taken, ByStop))[x]
  {
    if taken != [] {
      var init, last := taken[..|taken| - 1], taken[|taken| - 1];
      TakenSplit(init, x);
      JobsSnoc(taken);
      TakenAlso(taken, ByWorker, x);
      TakenAlso(taken, ByStop, x);
    }
  }

  /** In every interleaving: the job of a call that has returned is in exactly one place: run, being run, still queued,
      just taken by Stop, reported by Stop, dropped by Stop without a report, or refused (and reported by its caller). */
  lemma EachJobOnce(trace: seq<State>, n: nat, c: int)
    requires IsTrace(trace) && n < |trace| && c in trace[n].calls && (trace[n].calls[c].Queued? || trace[n].calls[c].Refused?)
    ensures var s := trace[n];
            multiset(s.ran)[c] + multiset(InHand(s.worker))[c] + multiset(s.queue)[c] + multiset(WithStop(s.stop))[c] +
            multiset(s.reported)[c] + multiset(s.dropped)[c] + (if s.calls[c].Refused? then 1 else 0) == 1
  {
    var s := trace[n];
    InvAlways(trace, n);
    OnceInDistinct(s.queued, c);
    TakenSplit(s.taken, c);
    assert multiset(s.queued) == multiset(JobsOf(s.taken)) + multiset(s.queue);
    assert multiset(TakenBy(s.taken, ByWorker)) == multiset(s.ran) + multiset(InHand(s.worker));
    assert multiset(TakenBy(s.taken, ByStop)) == multiset(s.reported) + multiset(WithStop(s.stop)) + multiset(s.dropped);
  }

  /** Jobs leave the queue in the order they were put there, and the worker runs them in this order. */
  lemma InQueueOrder(trace: seq<State>, n: nat)
    requires IsTrace(trace) && n < |trace|
    ensures JobsOf(trace[n].taken) <= trace[n].queued
    ensures trace[n].ran <= TakenBy(trace[n].taken, ByWorker)
  {
    InvAlways(trace, n);
  }

  /** Nothing is put on the closed queue. */
  lemma NothingAfterClose(trace: seq<State>, n: nat, c: int)
    requires IsTrace(trace) && n + 1 < |trace| && trace[n].closed
    ensures trace[n + 1].queued == trace[n].queued && trace[n + 1].closed
    ensures !Put(trace[n], trace[n + 1], c)
  {
    InvAlways(trace, n);
    assert Step(trace[n], trace[n + 1]);
  }

  lemma {:induction false} TakenLength(taken: seq<Taken>)
    ensures |taken| == |TakenBy(taken, ByWorker)| + |TakenBy(taken, ByStop)|
  {
    if taken != [] {
      TakenLength(taken[..|taken| - 1]);
    }
  }

  /** Stop counts how many of the queued jobs the worker has not taken at that moment. */
  lemma StopCounts(trace: seq<State>, n: nat)
    requires IsTrace(trace) && n + 1 < |trace| && !HasCounted(trace[n].stop) && HasCounted(trace[n + 1].stop)
    ensures trace[n + 1].stop.Counted?
    ensures trace[n + 1].stop.notSent + |TakenBy(trace[n + 1].taken, ByWorker)| == |trace[n + 1].queued|
  {
    var s, t := trace[n], trace[n + 1];
    InvAlways(trace, n);
    assert Step(s, t);
    CountStep(s, t);
  }

  lemma CountStep(s: State, t: State)
    requires Inv(s) && !HasCounted(s.stop) && HasCounted(t.stop) && Step(s, t)
    ensures t.stop.Counted? && t.stop.notSent + |TakenBy(t.taken, ByWorker)| == |t.queued|
  {
    assert DoneInTime(s, t) || CountRest(s, t) || Drained(s, t);
    TakenLength(s.taken);
  }

  /** Steps from `s` on. */
  ghost predicate RunFrom(s: State, run: seq<State>) {
    run != [] && run[0] == s && forall i :: 0 <= i < |run| - 1 ==> Step(run[i], run[i + 1])
  }

  /** The number Stop counted in `s` is that of the queued jobs the worker has not taken in `t`. */
  predicate CountHolds(s: State, t: State)
    requires HasCounted(s.stop)
  {
    s.stop.notSent + |TakenBy(t.taken, ByWorker)| == |t.queued|
  }

  /** `t` keeps the count and what was queued; an empty queue stays empty, and nothing more is taken. */
  predicate KeepsCount(s: State, t: State)
    requires HasCounted(s.stop)
  {
    && HasCounted(t.stop) && t.stop.notSent == s.stop.notSent && t.queued == s.queued
    && (s.queue == [] ==> t.queue == [] && t.taken == s.taken)
  }

  lemma CallAfterCount(s: State, t: State, c: int)
    requires HasCounted(s.stop) && NobodyHolds(s) && (Begin(s, t, c) || Put(s, t, c) || Refuse(s, t, c))
    ensures KeepsCount(s, t)
  {
    assert c in s.calls ==> !s.calls[c].Holding?;
  }

  lemma OtherAfterCount(s: State, t: State)
    requires HasCounted(s.stop) && (Take(s, t) || Finish(s, t) || Exit(s, t) || StopStep(s, t))
    ensures KeepsCount(s, t)
  {
  }

  /** After the count only the worker takes jobs, nothing is put on the queue, and the count is what Stop returns. */
  lemma StepAfterCount(s: State, t: State)
    requires Inv(s) && Step(s, t) && HasCounted(s.stop)
    ensures Inv(t) && KeepsCount(s, t)
  {
    StepKeeps(s, t);
    if c :| Begin(s, t, c) || Put(s, t, c) || Refuse(s, t, c) {
      CallAfterCount(s, t, c);
    } else {
      OtherAfterCount(s, t);
    }
  }

  lemma {:induction false} EmptyQueueIsFinal(s: State, run: seq<State>, n: nat)
    requires Inv(s) && HasCounted(s.stop) && s.queue == [] && RunFrom(s, run) && n < |run|
    ensures Inv(run[n]) && HasCounted(run[n].stop) && run[n].stop.notSent == s.stop.notSent
    ensures run[n].queued == s.queued && run[n].queue == [] && run[n].taken == s.taken
  {
    if n > 0 {
      EmptyQueueIsFinal(s, run, n - 1);
      assert Step(run[n - 1], run[n - 1 + 1]);
      StepAfterCount(run[n - 1], run[n]);
    }
  }

  /** With a job left on the queue the worker takes it next, after the one in hand if there is one. */
  lemma WorkerTakesOne(s: State) returns (run: seq<State>)
    requires Inv(s) && HasCounted(s.stop) && s.queue != []
    ensures RunFrom(s, run)
    ensures run[|run| - 1].queued == s.queued
    ensures |TakenBy(run[|run| - 1].taken, ByWorker)| == |TakenBy(s.taken, ByWorker)| + 1
  {
    var idle := s.(worker := Idle, ran := s.ran + InHand(s.worker));
    var t := Received(idle, ByWorker).(worker := Running(idle.queue[0]));
    assert Take(idle, t);
    TakenSnoc(s.taken, Taken(s.queue[0], ByWorker), ByWorker);
    if s.worker.Running? {
      assert Finish(s, idle);
      run := [s, idle, t];
    } else {
      assert idle == s;
      run := [s, t];
    }
  }

  /** The count stays right, whatever happens afterwards, also before Stop returns it, if and only if no job is on the queue
      when it is made. */
  lemma CountIsFinalIffQueueEmpty(trace: seq<State>, n: nat)
    requires IsTrace(trace) && n + 1 < |trace| && !HasCounted(trace[n].stop) && HasCounted(trace[n + 1].stop)
    ensures var s := trace[n + 1];
            s.queue == [] <==> forall run :: RunFrom(s, run) ==> CountHolds(s, run[|run| - 1])
  {
    var s := trace[n + 1];
    StopCounts(trace, n);
    InvAlways(trace, n + 1);
    if s.queue == [] {
      forall run | RunFrom(s, run)
        ensures CountHolds(s, run[|run| - 1])
      {
        EmptyQueueIsFinal(s, run, |run| - 1);
      }
    } else {
      var run := WorkerTakesOne(s);
      assert !CountHolds(s, run[|run| - 1]);
    }
  }

  /** Two jobs are queued and Stop is called at once. */
  const STOPPED: State :=
    State(2, [0, 1], true, map[0 := Queued, 1 := Queued], Idle, Waiting, [0, 1], [], [], [], [])

  /** Stop has taken the first job when its report time is over. */
  const HOLDS_FIRST: State := STOPPED.(queue := [1], taken := [Taken(0, ByStop)], stop := Has(0))

  const COUNTED_BOTH: State := HOLDS_FIRST.(stop := Counted(2), dropped := [0])

  /** The worker takes the second job before Stop returns. */
  const TAKEN_AFTER: State :=
    COUNTED_BOTH.(queue := [], taken := [Taken(0, ByStop), Taken(1, ByWorker)], worker := Running(1))

  function LateTrace(): seq<State> {
    var s0 := State(2, [], false, map[], Idle, NotCalled, [], [], [], [], []);
    var s1 := s0.(calls := map[0 := Holding]);
    var s2 := s1.(queue := [0], queued := [0], calls := map[0 := Queued]);
    var s3 := s2.(calls := map[0 := Queued, 1 := Holding]);
    var s4 := s3.(queue := [0, 1], queued := [0, 1], calls := map[0 := Queued, 1 := Queued]);
    [s0, s1, s2, s3, s4, STOPPED, STOPPED.(stop := Draining), HOLDS_FIRST, COUNTED_BOTH, TAKEN_AFTER,
     TAKEN_AFTER.(stop := Returned(2))]
  }

  lemma LateTraceSteps()
    ensures IsTrace(LateTrace())
  {
    var t := LateTrace();
    LateTraceQueues();
    LateTraceStops();
    forall i | 0 <= i < |t| - 1
      ensures Step(t[i], t[i + 1])
    {
    }
  }

  lemma LateTraceQueues()
    ensures var t := LateTrace(); Begin(t[0], t[1], 0) && Put(t[1], t[2], 0) && Begin(t[2], t[3], 1) && Put(t[3], t[4], 1)
  {
  }

  lemma LateTraceStops()
    ensures var t := LateTrace();
            && Close(t[4], t[5]) && TimeOut(t[5], t[6]) && StopTakes(t[6], t[7]) && CountRest(t[7], t[8]) && Take(t[8], t[9])
            && Return(t[9], t[10])
  {
  }

  /** A trace on which Stop counts a job as not sent that the worker takes before Stop returns: the queue is empty then. */
  lemma CountedJobIsTaken()
    ensures IsTrace(LateTrace())
    ensures LateTrace()[8].stop == Counted(2) && LateTrace()[10].stop == Returned(2) && LateTrace()[10].queue == []
    ensures TakenBy(LateTrace()[10].taken, ByWorker) == [1] && !CountHolds(LateTrace()[8], LateTrace()[10])
  {
    LateTraceSteps();
    LateTaken();
  }

  lemma LateTaken()
    ensures TakenBy([Taken(0, ByStop), Taken(1, ByWorker)], ByWorker) == [1]
  {
    TakenSnoc([], Taken(0, ByStop), ByWorker);
    TakenSnoc([Taken(0, ByStop)], Taken(1, ByWorker), ByWorker);
    assert [] + [Taken(0, ByStop)] == [Taken(0, ByStop)];
    assert [Taken(0, ByStop)] + [Taken(1, ByWorker)] == [Taken(0, ByStop), Taken(1, ByWorker)];
  }

  /** When the worker was done in time, every queued job was run. */
  lemma DoneMeansAllRun(trace: seq<State>, n: nat)
    requires IsTrace(trace) && n + 1 < |trace| && DoneInTime(trace[n], trace[n + 1])
    ensures trace[n + 1].ran == TakenBy(trace[n + 1].taken, ByWorker) && |trace[n + 1].ran| == |trace[n + 1].queued|
  {
    InvAlways(trace, n);
    TakenLength(trace[n].taken);
  }
}
