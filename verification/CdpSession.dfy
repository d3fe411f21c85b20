/** Request and response correlation of a CDP session. Callers take an id, register a channel of
    capacity one, write the command and wait for a reply or a timeout; readers look replies up in
    the pending table and deliver them. The state machine runs one atomic action at a time, in any
    order. `honest` says that the browser answers each id at most once. */
module CdpSession {

  datatype Reply = Reply(id: nat, isError: bool, content: string)

  datatype Result = Answered(reply: Reply) | NotMarshalled | NotConnected | NotWritten | TimedOut

  datatype Call =
    | Started                   // id taken
    | Registered                // channel in the pending table
    | Waiting                   // command written
    | Leaving(result: Result)   // outcome known, deferred removal still to run
    | Returned(result: Result)

  datatype Reader =
    | Reading
    | Delivering(reply: Reply)  // channel found, about to send on it
    | Stopped

  /** `calls[id]` and `channels[id]` belong to the call that took `id`; a channel outlives its entry
      in `pending` as long as someone still holds it. `answered` are the ids the browser replied to. */
  datatype State = State(
    lastId: nat, calls: map<nat, Call>, pending: set<nat>, channels: map<nat, seq<Reply>>,
    readers: seq<Reader>, answered: set<nat>)

  function Init(): State { State(0, map[], {}, map[], [], {}) }

  datatype Step =
    | Begin
    | Fail(id: nat, result: Result)   // marshalling, connection or write error
    | Register(id: nat)
    | Write(id: nat)
    | Receive(id: nat)
    | Timeout(id: nat)
    | Leave(id: nat)
    | Connect
    | Read(r: nat, reply: Reply)
    | Deliver(r: nat)
    | Stop(r: nat)

  predicate Enabled(honest: bool, s: State, step: Step) {
    match step
    case Begin => true
    case Fail(id, result) =>
      id in s.calls && ((s.calls[id].Started? && result.NotMarshalled?)
                        || (s.calls[id].Registered? && (result.NotConnected? || result.NotWritten?)))
    case Register(id) => id in s.calls && s.calls[id].Started?
    case Write(id) => id in s.calls && s.calls[id].Registered?
    case Receive(id) => id in s.calls && s.calls[id].Waiting? && id in s.channels && s.channels[id] != []
    case Timeout(id) => id in s.calls && s.calls[id].Waiting?
    case Leave(id) => id in s.calls && s.calls[id].Leaving?
    case Connect => true
    case Read(r, reply) => r < |s.readers| && s.readers[r].Reading? && reply.id > 0 && (honest ==> reply.id !in s.answered)
    case Deliver(r) =>
      r < |s.readers| && s.readers[r].Delivering? && s.readers[r].reply.id in s.channels
      && |s.channels[s.readers[r].reply.id]| < 1
    case Stop(r) => r < |s.readers| && s.readers[r].Reading?
  }

  function Apply(honest: bool, s: State, step: Step): State
    requires Enabled(honest, s, step)
  {
    match step
    case Begin => s.(lastId := s.lastId + 1, calls := s.calls[s.lastId + 1 := Started])
    case Fail(id, result) => s.(calls := s.calls[id := if s.calls[id].Started? then Returned(result) else Leaving(result)])
    case Register(id) => s.(calls := s.calls[id := Registered], pending := s.pending + {id}, channels := s.channels[id := []])
    case Write(id) => s.(calls := s.calls[id := Waiting])
    case Receive(id) => s.(calls := s.calls[id := Leaving(Answered(s.channels[id][0]))], channels := s.channels[id := s.channels[id][1..]])
    case Timeout(id) => s.(calls := s.calls[id := Leaving(TimedOut)])
    case Leave(id) => s.(calls := s.calls[id := Returned(s.calls[id].result)], pending := s.pending - {id})
    case Connect => s.(readers := s.readers + [Reading])
    case Read(r, reply) =>
      s.(readers := if reply.id in s.pending then s.readers[r := Delivering(reply)] else s.readers, answered := s.answered + {reply.id})
    case Deliver(r) =>
      var reply := s.readers[r].reply;
      s.(readers := s.readers[r := Reading], channels := s.channels[reply.id := s.channels[reply.id] + [reply]])
    case Stop(r) => s.(readers := s.readers[r := Stopped])
  }

  predicate Runs(honest: bool, s: State, steps: seq<Step>)
    decreases |steps|
  {
    steps == [] || (Enabled(honest, s, steps[0]) && Runs(honest, Apply(honest, s, steps[0]), steps[1..]))
  }

  function Execute(honest: bool, s: State, steps: seq<Step>): State
    requires Runs(honest, s, steps)
    decreases |steps|
  {
    if steps == [] then s else Execute(honest, Apply(honest, s, steps[0]), steps[1..])
  }

  // ----- the invariants

  predicate InTable(c: Call) { c.Registered? || c.Waiting? || c.Leaving? }

  /** The ids taken so far are those of the calls. */
  ghost predicate IdsAreFresh(s: State) {
    forall id :: id in s.calls <==> 1 <= id <= s.lastId
  }

  /** The pending table holds exactly the calls that are registered and have not left. */
  ghost predicate TableIsExact(s: State) {
    forall id :: id in s.pending <==> id in s.calls && InTable(s.calls[id])
  }

  /** Channels carry the replies to their own id, one at a time. */
  ghost predicate ChannelsAreOwn(s: State) {
    && (forall id :: id in s.pending ==> id in s.channels)
    && (forall id :: id in s.channels ==> id in s.calls && !s.calls[id].Started? && |s.channels[id]| <= 1)
    && (forall id :: id in s.channels && s.channels[id] != [] ==> s.channels[id][0].id == id && id in s.answered)
  }

  ghost predicate ReadersHoldChannels(s: State) {
    forall r: nat :: r < |s.readers| && s.readers[r].Delivering? ==>
      s.readers[r].reply.id in s.channels && s.readers[r].reply.id in s.answered
  }

  predicate OwnReply(id: nat, c: Call) {
    (c.Leaving? || c.Returned?) && c.result.Answered? ==> c.result.reply.id == id
  }

  ghost predicate ResultsAreOwn(s: State) {
    forall id :: id in s.calls ==> OwnReply(id, s.calls[id])
  }

  /** What the program keeps, whatever the browser does. */
  ghost predicate Inv(s: State) {
    IdsAreFresh(s) && TableIsExact(s) && ChannelsAreOwn(s) && ReadersHoldChannels(s) && ResultsAreOwn(s)
  }

  /** With an honest browser a reply is in one place at a time: with one reader, in its channel, or
      with the caller. */
  ghost predicate OnePlace(s: State) {
    && (forall r: nat :: r < |s.readers| && s.readers[r].Delivering? && s.readers[r].reply.id in s.channels ==>
          s.channels[s.readers[r].reply.id] == [])
    && (forall r: nat, q: nat :: r < |s.readers| && q < |s.readers| && r != q && s.readers[r].Delivering? && s.readers[q].Delivering? ==>
          s.readers[r].reply.id != s.readers[q].reply.id)
  }

  lemma StepTable(honest: bool, s: State, step: Step)
    requires Inv(s) && Enabled(honest, s, step)
    ensures IdsAreFresh(Apply(honest, s, step)) && TableIsExact(Apply(honest, s, step))
  {
  }

  lemma StepChannels(honest: bool, s: State, step: Step)
    requires Inv(s) && Enabled(honest, s, step)
    ensures ChannelsAreOwn(Apply(honest, s, step))
  {
  }

  lemma StepReaders(honest: bool, s: State, step: Step)
    requires Inv(s) && Enabled(honest, s, step)
    ensures ReadersHoldChannels(Apply(honest, s, step)) && ResultsAreOwn(Apply(honest, s, step))
  {
  }

  lemma StepInv(honest: bool, s: State, step: Step)
    requires Inv(s) && Enabled(honest, s, step)
    ensures Inv(Apply(honest, s, step))
  {
    StepTable(honest, s, step);
    StepChannels(honest, s, step);
    StepReaders(honest, s, step);
  }

  lemma StepOnePlace(s: State, step: Step)
    requires Inv(s) && OnePlace(s) && Enabled(true, s, step)
    ensures OnePlace(Apply(true, s, step))
  {
  }

  lemma {:induction false} RunInv(honest: bool, s: State, steps: seq<Step>)
    requires Inv(s) && Runs(honest, s, steps)
    ensures Inv(Execute(honest, s, steps))
    decreases |steps|
  {
    if steps != [] {
      StepInv(honest, s, steps[0]);
      RunInv(honest, Apply(honest, s, steps[0]), steps[1..]);
    }
  }

  lemma {:induction false} RunOnePlace(s: State, steps: seq<Step>)
    requires Inv(s) && OnePlace(s) && Runs(true, s, steps)
    ensures OnePlace(Execute(true, s, steps))
    decreases |steps|
  {
    if steps != [] {
      StepInv(true, s, steps[0]);
      StepOnePlace(s, steps[0]);
      RunOnePlace(Apply(true, s, steps[0]), steps[1..]);
    }
  }

  // ----- main results

  /** On every interleaving, whatever the browser sends: the next id was never used, a caller is only
      ever handed a reply to its own id, and no table entry outlives its call. */
  lemma CallersGetTheirOwnReply(honest: bool, steps: seq<Step>)
    requires Runs(honest, Init(), steps)
    ensures var s := Execute(honest, Init(), steps);
            && s.lastId + 1 !in s.calls
            && (forall id :: id in s.calls && s.calls[id].Returned? && s.calls[id].result.Answered? ==>
                  s.calls[id].result.reply.id == id)
            && (forall id :: id in s.pending ==> id in s.calls && !s.calls[id].Returned?)
  {
    RunInv(honest, Init(), steps);
    var s := Execute(honest, Init(), steps);
    assert forall id :: id in s.calls ==> OwnReply(id, s.calls[id]);
  }

  predicate Blocked(s: State, r: nat) {
    r < |s.readers| && s.readers[r].Delivering? && !Enabled(false, s, Deliver(r))
  }

  /** If the browser answers each id at most once, a reader can always deliver at once. */
  lemma ReadersNeverBlock(steps: seq<Step>, r: nat)
    requires Runs(true, Init(), steps)
    ensures !Blocked(Execute(true, Init(), steps), r)
  {
    RunInv(true, Init(), steps);
    RunOnePlace(Init(), steps);
  }

  /** A returned call never changes again: a late reply finds no table entry and is dropped. */
  lemma {:induction false} ReturnedIsFinal(honest: bool, s: State, steps: seq<Step>, id: nat)
    requires Inv(s) && Runs(honest, s, steps) && id in s.calls && s.calls[id].Returned?
    ensures var s' := Execute(honest, s, steps); id in s'.calls && s'.calls[id] == s.calls[id] && id !in s'.pending
    decreases |steps|
  {
    if steps != [] {
      StepInv(honest, s, steps[0]);
      ReturnedIsFinal(honest, Apply(honest, s, steps[0]), steps[1..], id);
    }
  }

  lemma LateReplyIsDropped(honest: bool, s: State, r: nat, reply: Reply)
    requires Inv(s) && Enabled(honest, s, Read(r, reply)) && reply.id in s.calls && s.calls[reply.id].Returned?
    ensures Apply(honest, s, Read(r, reply)) == s.(answered := s.answered + {reply.id})
  {
    assert reply.id !in s.pending;
  }

  /** No call depends on a reader to come back: until it has returned, one of its own steps can run. */
  lemma CallsCanAlwaysReturn(honest: bool, steps: seq<Step>, id: nat)
    requires Runs(honest, Init(), steps) && id in Execute(honest, Init(), steps).calls
    ensures var s := Execute(honest, Init(), steps);
            s.calls[id].Returned? || Enabled(honest, s, Register(id)) || Enabled(honest, s, Write(id))
            || Enabled(honest, s, Timeout(id)) || Enabled(honest, s, Leave(id))
  {
  }

  // ----- what a browser that answers twice can do

  function ReadId(step: Step): nat { if step.Read? then step.reply.id else 0 }

  ghost predicate AnswersOnce(steps: seq<Step>) {
    forall i, j :: 0 <= i < j < |steps| && steps[i].Read? && steps[j].Read? ==> ReadId(steps[i]) != ReadId(steps[j])
  }

  lemma {:induction false} AnswersOnceIsHonest(s: State, steps: seq<Step>)
    requires Runs(false, s, steps) && AnswersOnce(steps)
    requires forall i :: 0 <= i < |steps| && steps[i].Read? ==> ReadId(steps[i]) !in s.answered
    ensures Runs(true, s, steps) && Execute(true, s, steps) == Execute(false, s, steps)
    decreases |steps|
  {
    if steps != [] {
      var rest := steps[1..];
      assert steps[0].Read? ==> ReadId(steps[0]) !in s.answered;
      var s' := Apply(false, s, steps[0]);
      assert s' == Apply(true, s, steps[0]);
      forall i | 0 <= i < |rest| && rest[i].Read?
        ensures ReadId(rest[i]) !in s'.answered
      {
        assert rest[i] == steps[i + 1];
      }
      forall i, j | 0 <= i < j < |rest| && rest[i].Read? && rest[j].Read?
        ensures ReadId(rest[i]) != ReadId(rest[j])
      {
        assert rest[i] == steps[i + 1] && rest[j] == steps[j + 1];
      }
      AnswersOnceIsHonest(s', rest);
    }
  }

  /** A reader blocks only if some id was answered twice. */
  lemma BlockedOnlyByDuplicates(steps: seq<Step>, r: nat)
    requires Runs(false, Init(), steps) && Blocked(Execute(false, Init(), steps), r)
    ensures !AnswersOnce(steps)
  {
    if AnswersOnce(steps) {
      AnswersOnceIsHonest(Init(), steps);
      ReadersNeverBlock(steps, r);
    }
  }

  // ----- which replies block a reader

  /** The replies a run reads, in order. */
  function RepliesRead(steps: seq<Step>): seq<Reply> {
    if steps == [] then []
    else (if steps[0].Read? then [steps[0].reply] else []) + RepliesRead(steps[1..])
  }

  ghost predicate SameId(replies: seq<Reply>, i: nat, j: nat) {
    i < j < |replies| && replies[i].id == replies[j].id
  }

  /** Some run that reads no more than a beginning of these replies ends with a blocked reader. */
  ghost predicate CanBlock(replies: seq<Reply>) {
    exists steps, r, n :: Blocks(replies, steps, r, n)
  }

  ghost predicate Blocks(replies: seq<Reply>, steps: seq<Step>, r: nat, n: nat) {
    && n <= |replies| && Runs(false, Init(), steps) && RepliesRead(steps) == replies[..n]
    && Blocked(Execute(false, Init(), steps), r)
  }

  lemma {:induction false} RunsAppend(honest: bool, s: State, a: seq<Step>, b: seq<Step>)
    requires Runs(honest, s, a) && Runs(honest, Execute(honest, s, a), b)
    ensures Runs(honest, s, a + b) && Execute(honest, s, a + b) == Execute(honest, Execute(honest, s, a), b)
    decreases |a|
  {
    if a == [] {
      assert a + b == b;
    } else {
      assert (a + b)[0] == a[0] && (a + b)[1..] == a[1..] + b;
      RunsAppend(honest, Apply(honest, s, a[0]), a[1..], b);
    }
  }

  lemma {:induction false} ReadsAppend(a: seq<Step>, b: seq<Step>)
    ensures RepliesRead(a + b) == RepliesRead(a) + RepliesRead(b)
  {
    if a == [] {
      assert a + b == b;
    } else {
      assert (a + b)[0] == a[0] && (a + b)[1..] == a[1..] + b;
      ReadsAppend(a[1..], b);
    }
  }

  lemma OneStep(honest: bool, s: State, step: Step)
    requires Enabled(honest, s, step)
    ensures Runs(honest, s, [step]) && Execute(honest, s, [step]) == Apply(honest, s, step)
    ensures RepliesRead([step]) == if step.Read? then [step.reply] else []
  {
    assert [step][1..] == [];
  }

  /** One more step at the end of a run. */
  lemma Extend(s: State, steps: seq<Step>, step: Step)
    requires Runs(false, s, steps) && Enabled(false, Execute(false, s, steps), step)
    ensures Runs(false, s, steps + [step])
    ensures Execute(false, s, steps + [step]) == Apply(false, Execute(false, s, steps), step)
    ensures RepliesRead(steps + [step]) == RepliesRead(steps) + if step.Read? then [step.reply] else []
  {
    OneStep(false, Execute(false, s, steps), step);
    RunsAppend(false, s, steps, [step]);
    ReadsAppend(steps, [step]);
  }

  /** In every state the program can be in, two replies to a waiting call block the reader that
      delivers the first and finds the second before the caller has received. */
  lemma TwoRepliesBlock(s: State, r: nat, a: Reply, b: Reply)
    requires Inv(s) && r < |s.readers| && s.readers[r].Reading? && a.id == b.id > 0
    requires a.id in s.calls && s.calls[a.id].Waiting? && s.channels[a.id] == []
    ensures var steps := [Read(r, a)] + [Deliver(r)] + [Read(r, b)]; Runs(false, s, steps) && Blocked(Execute(false, s, steps), r)
  {
    assert a.id in s.pending;
    OneStep(false, s, Read(r, a));
    Extend(s, [Read(r, a)], Deliver(r));
    Extend(s, [Read(r, a)] + [Deliver(r)], Read(r, b));
  }

  /** The call `id` waits with an empty channel, it is alone in the table, and reader 0 reads. */
  ghost predicate Listening(s: State, id: nat) {
    && id in s.calls && s.calls[id].Waiting? && s.pending == {id}
    && id in s.channels && s.channels[id] == [] && s.readers == [Reading]
  }

  lemma {:induction false} BeginMany(n: nat) returns (steps: seq<Step>)
    ensures Runs(false, Init(), steps) && RepliesRead(steps) == []
    ensures var s := Execute(false, Init(), steps);
      && s.lastId == n && s.pending == {} && s.readers == [] && (n > 0 ==> n in s.calls && s.calls[n].Started?)
  {
    steps := [];
    if n > 0 {
      steps := BeginMany(n - 1);
      Extend(Init(), steps, Begin);
      steps := steps + [Begin];
    }
  }

  lemma ReachListening(id: nat) returns (steps: seq<Step>)
    requires id > 0
    ensures Runs(false, Init(), steps) && RepliesRead(steps) == [] && Listening(Execute(false, Init(), steps), id)
  {
    steps := BeginMany(id);
    Extend(Init(), steps, Register(id));
    steps := steps + [Register(id)];
    Extend(Init(), steps, Write(id));
    steps := steps + [Write(id)];
    Extend(Init(), steps, Connect);
    steps := steps + [Connect];
  }

  /** Reads as far as the replies go on without the ids of the table: they are dropped. */
  lemma {:induction false} ReadPast(start: seq<Step>, replies: seq<Reply>) returns (steps: seq<Step>)
    requires Runs(false, Init(), start) && Execute(false, Init(), start).readers == [Reading]
    requires forall i :: 0 <= i < |replies| ==> replies[i].id > 0 && replies[i].id !in Execute(false, Init(), start).pending
    ensures Runs(false, Init(), steps) && RepliesRead(steps) == RepliesRead(start) + replies
    ensures var s, s' := Execute(false, Init(), start), Execute(false, Init(), steps); s' == s.(answered := s'.answered)
  {
    if replies == [] {
      steps := start;
    } else {
      var n := |replies| - 1;
      steps := ReadPast(start, replies[..n]);
      Extend(Init(), steps, Read(0, replies[n]));
      steps := steps + [Read(0, replies[n])];
      assert replies == replies[..n] + [replies[n]];
    }
  }

  lemma DeliverFirst(start: seq<Step>, a: Reply) returns (steps: seq<Step>)
    requires Runs(false, Init(), start) && Listening(Execute(false, Init(), start), a.id) && a.id > 0
    ensures Runs(false, Init(), steps) && RepliesRead(steps) == RepliesRead(start) + [a]
    ensures var s, s' := Execute(false, Init(), start), Execute(false, Init(), steps);
      s' == s.(channels := s.channels[a.id := [a]], answered := s'.answered)
  {
    Extend(Init(), start, Read(0, a));
    steps := start + [Read(0, a)];
    Extend(Init(), steps, Deliver(0));
    steps := steps + [Deliver(0)];
    var s, s' := Execute(false, Init(), start), Execute(false, Init(), steps);
    assert s.channels[a.id] + [a] == [a] && s'.readers == s.readers;
  }

  /** The second of two replies to a waiting call blocks the reader. */
  lemma SecondReplyBlocks(start: seq<Step>, between: seq<Reply>, a: Reply, b: Reply) returns (steps: seq<Step>)
    requires Runs(false, Init(), start) && Listening(Execute(false, Init(), start), a.id) && a.id == b.id > 0
    requires forall i :: 0 <= i < |between| ==> 0 < between[i].id != a.id
    ensures Runs(false, Init(), steps) && Blocked(Execute(false, Init(), steps), 0)
    ensures Execute(false, Init(), steps).calls == Execute(false, Init(), start).calls
    ensures Execute(false, Init(), steps).readers == [Delivering(b)]
    ensures RepliesRead(steps) == RepliesRead(start) + [a] + between + [b]
  {
    steps := DeliverFirst(start, a);
    steps := ReadPast(steps, between);
    Extend(Init(), steps, Read(0, b));
    steps := steps + [Read(0, b)];
  }

  /** The first repetition: the nearest earlier reply of the same id is the only one before it. */
  lemma {:induction false} FirstRepetition(replies: seq<Reply>) returns (i: nat, j: nat)
    requires exists i, j :: SameId(replies, i, j)
    ensures SameId(replies, i, j)
    ensures forall k :: 0 <= k < j && k != i ==> replies[k].id != replies[i].id
  {
    i, j :| SameId(replies, i, j);
    if k :| 0 <= k < j && k != i && replies[k].id == replies[i].id {
      var before := replies[..j];
      assert SameId(before, if k < i then k else i, if k < i then i else k);
      i, j := FirstRepetition(before);
    }
  }

  lemma RepetitionBlocks(replies: seq<Reply>)
    requires forall i :: 0 <= i < |replies| ==> replies[i].id > 0
    requires exists i, j :: SameId(replies, i, j)
    ensures CanBlock(replies)
  {
    var i, j := FirstRepetition(replies);
    var a, b := replies[i], replies[j];
    var steps := ReachListening(a.id);
    steps := ReadPast(steps, replies[..i]);
    assert Listening(Execute(false, Init(), steps), a.id);
    steps := SecondReplyBlocks(steps, replies[i + 1..j], a, b);
    assert replies[..j + 1] == [] + replies[..i] + [a] + replies[i + 1..j] + [b];
    assert Blocks(replies, steps, 0, j + 1);
  }

  lemma {:induction false} RepeatedRead(steps: seq<Step>, i: nat, j: nat) returns (k: nat, l: nat)
    requires i < j < |steps| && steps[i].Read? && steps[j].Read?
    ensures k < l < |RepliesRead(steps)| && RepliesRead(steps)[k] == steps[i].reply && RepliesRead(steps)[l] == steps[j].reply
  {
    if i > 0 {
      k, l := RepeatedRead(steps[1..], i - 1, j - 1);
      if steps[0].Read? {
        k, l := k + 1, l + 1;
      }
    } else {
      l := PositionOfRead(steps[1..], j - 1);
      k, l := 0, l + 1;
    }
  }

  lemma {:induction false} PositionOfRead(steps: seq<Step>, j: nat) returns (l: nat)
    requires j < |steps| && steps[j].Read?
    ensures l < |RepliesRead(steps)| && RepliesRead(steps)[l] == steps[j].reply
  {
    if j == 0 {
      l := 0;
    } else {
      l := PositionOfRead(steps[1..], j - 1);
      if steps[0].Read? {
        l := l + 1;
      }
    }
  }

  /** A list of replies can block a reader exactly when two of them answer the same id. */
  lemma RepliesBlockIff(replies: seq<Reply>)
    requires forall i :: 0 <= i < |replies| ==> replies[i].id > 0
    ensures CanBlock(replies) <==> exists i, j :: SameId(replies, i, j)
  {
    if CanBlock(replies) {
      var steps: seq<Step>, r: nat, n: nat :| Blocks(replies, steps, r, n);
      BlockedOnlyByDuplicates(steps, r);
      var i: nat, j: nat :| i < j < |steps| && steps[i].Read? && steps[j].Read? && ReadId(steps[i]) == ReadId(steps[j]);
      var k, l := RepeatedRead(steps, i, j);
      assert replies[..n][k] == replies[k] && replies[..n][l] == replies[l];
      assert SameId(replies, k, l);
    }
    if exists i, j :: SameId(replies, i, j) {
      RepetitionBlocks(replies);
    }
  }

  // ----- how long a reader stays blocked

  /** The outcome of the call is known, so it receives no more. */
  predicate Gone(c: Call) { c.Leaving? || c.Returned? }

  /** Nobody empties the channel of a call that has its outcome. */
  lemma {:induction false} BlockedForever(honest: bool, s: State, steps: seq<Step>, r: nat)
    requires Inv(s) && Runs(honest, s, steps) && Blocked(s, r) && Gone(s.calls[s.readers[r].reply.id])
    ensures Blocked(Execute(honest, s, steps), r)
    decreases |steps|
  {
    if steps != [] {
      StepInv(honest, s, steps[0]);
      BlockedForever(honest, Apply(honest, s, steps[0]), steps[1..], r);
    }
  }

  /** A call that can still receive its reply frees the reader. */
  lemma ReceivingUnblocks(honest: bool, s: State, r: nat) returns (steps: seq<Step>)
    requires Inv(s) && Blocked(s, r) && !Gone(s.calls[s.readers[r].reply.id])
    ensures Runs(honest, s, steps) && !Blocked(Execute(honest, s, steps), r)
  {
    var id := s.readers[r].reply.id;
    if s.calls[id].Registered? {
      var s' := Apply(honest, s, Write(id));
      OneStep(honest, s, Write(id));
      OneStep(honest, s', Receive(id));
      RunsAppend(honest, s, [Write(id)], [Receive(id)]);
      steps := [Write(id)] + [Receive(id)];
    } else {
      OneStep(honest, s, Receive(id));
      steps := [Receive(id)];
    }
  }

  ghost predicate StaysBlocked(honest: bool, s: State, r: nat) {
    forall steps :: Runs(honest, s, steps) ==> Blocked(Execute(honest, s, steps), r)
  }

  /** A blocked reader stays blocked on every continuation exactly when the call whose reply it holds
      has its outcome already, by a reply, an error or a timeout. */
  lemma StaysBlockedIff(honest: bool, s: State, r: nat)
    requires Inv(s) && Blocked(s, r)
    ensures StaysBlocked(honest, s, r) <==> Gone(s.calls[s.readers[r].reply.id])
  {
    if Gone(s.calls[s.readers[r].reply.id]) {
      forall steps | Runs(honest, s, steps)
        ensures Blocked(Execute(honest, s, steps), r)
      {
        BlockedForever(honest, s, steps, r);
      }
    } else {
      var steps := ReceivingUnblocks(honest, s, r);
    }
  }

  /** A concrete run: the command times out after its reply was delivered and before a second one
      comes, and the reader is stuck with that for good. */
  lemma DuplicateReplyBlocks() returns (steps: seq<Step>)
    ensures Runs(false, Init(), steps) && RepliesRead(steps) == [Reply(1, false, ""), Reply(1, false, "")]
    ensures var s := Execute(false, Init(), steps); Blocked(s, 0) && 1 in s.calls && s.calls[1] == Returned(TimedOut) && StaysBlocked(false, s, 0)
  {
    var reply := Reply(1, false, "");
    steps := ReachListening(1);
    steps := SecondReplyBlocks(steps, [], reply, reply);
    Extend(Init(), steps, Timeout(1));
    steps := steps + [Timeout(1)];
    Extend(Init(), steps, Leave(1));
    steps := steps + [Leave(1)];
    assert [] + [reply] + [] + [reply] == [reply, reply];
    RunInv(false, Init(), steps);
    StaysBlockedIff(false, Execute(false, Init(), steps), 0);
  }
}
