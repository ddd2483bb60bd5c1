/** Replication offsets and WAIT (internal/replication/manager.go, internal/handler/session/replconf.go,
    internal/handler/session/psync.go, internal/server/session.go).  Master and replica count bytes each on
    their own; WAIT relies on the counts. */
module Replication {
  import opened Bytes
  import opened StreamIDs
  import opened Resp

  // One replica: the manager's record of it, the two directions of the connection, and the replica itself.
  datatype Replica = Replica(
    handshakeDone: bool,
    lastAck: int,            // LastAckOffset
    down: seq<Command>,      // sent by the master, not yet taken by the replica
    up: seq<int>,            // acknowledged offsets under way to the master
    offset: int,             // the replica's own count
    running: Option<Command>, // executed, but not yet counted
    applied: seq<Command>,   // everything executed
    joined: nat)             // how many commands the master had propagated before the handshake

  // The master, with everything it has propagated.
  datatype State = State(offset: int, sent: seq<Command>, replicas: map<string, Replica>)

  const GETACK: Command := Command("REPLCONF", ["GETACK", "*"])

  datatype Event =
    | Connect(id: string)             // the first REPLCONF of a connection
    | Handshake(id: string)           // PSYNC, answered by a full resynchronisation
    | Propagate(command: Command)
    | Execute(id: string)             // the replica takes a command and executes it
    | Count(id: string)               // then it adds the command's bytes to its offset
    | Acknowledge(id: string)         // an acknowledgement arrives at the master

  function Received(r: Replica, c: Command): Replica {
    if r.handshakeDone then r.(down := r.down + [c]) else r
  }

  // Whoever executes GETACK answers with the offset as it stands, without the bytes of GETACK.
  function Executed(r: Replica): Replica {
    if r.running.Some? || r.down == [] then r
    else
      var c := r.down[0];
      r.(down := r.down[1..], running := Some(c), applied := r.applied + [c],
         up := if c == GETACK then r.up + [r.offset] else r.up)
  }

  function Counted(r: Replica): Replica {
    if r.running.None? then r else r.(offset := r.offset + Size(r.running.value), running := None)
  }

  function Acknowledged(r: Replica): Replica {
    if r.up == [] then r else r.(lastAck := r.up[0], up := r.up[1..])
  }

  // The full resynchronisation tells the replica to count from zero.
  function Joined(r: Replica, propagated: nat): Replica {
    if r.handshakeDone then r else r.(handshakeDone := true, offset := 0, joined := propagated)
  }

  function Step(s: State, e: Event): State {
    match e
    case Connect(id) =>
      if id in s.replicas then s
      else s.(replicas := s.replicas[id := Replica(false, 0, [], [], -1, None, [], 0)])
    case Handshake(id) =>
      if id in s.replicas then s.(replicas := s.replicas[id := Joined(s.replicas[id], |s.sent|)]) else s
    case Propagate(c) =>
      State(s.offset + Size(c), s.sent + [c], map id | id in s.replicas :: Received(s.replicas[id], c))
    case Execute(id) =>
      if id in s.replicas then s.(replicas := s.replicas[id := Executed(s.replicas[id])]) else s
    case Count(id) =>
      if id in s.replicas then s.(replicas := s.replicas[id := Counted(s.replicas[id])]) else s
    case Acknowledge(id) =>
      if id in s.replicas then s.(replicas := s.replicas[id := Acknowledged(s.replicas[id])]) else s
  }

  function Run(s: State, es: seq<Event>): State
    decreases |es|
  {
    if es == [] then s else Run(Step(s, es[0]), es[1..])
  }

  const INITIAL: State := State(0, [], map[])

  // ---- sizes ----

  lemma {:induction false} TotalConcat(a: seq<Command>, b: seq<Command>)
    ensures TotalSize(a + b) == TotalSize(a) + TotalSize(b)
  {
    if a == [] {
      assert a + b == b;
    } else {
      assert (a + b)[1..] == a[1..] + b;
      TotalConcat(a[1..], b);
    }
  }

  lemma {:induction false} TotalPlusOne(a: seq<Command>, c: Command)
    ensures TotalSize(a + [c]) == TotalSize(a) + Size(c)
  {
    TotalConcat(a, [c]);
    assert [c][1..] == [];
  }

  // Of two prefixes of one list the longer has more bytes.
  lemma PrefixBySize(a: seq<Command>, b: seq<Command>, whole: seq<Command>)
    requires a <= whole && b <= whole && TotalSize(a) <= TotalSize(b)
    ensures a <= b
  {
    if |b| < |a| {
      assert a == b + a[|b|..];
      TotalConcat(b, a[|b|..]);
    }
  }

  // ---- the invariant ----

  // What the replica has counted.
  ghost function CountedPart(r: Replica): seq<Command> {
    if r.running.Some? && r.applied != [] then r.applied[..|r.applied| - 1] else r.applied
  }

  // The bytes in front of the last GETACK.
  ghost function Mark(applied: seq<Command>): nat {
    if applied == [] then 0
    else
      var before := applied[..|applied| - 1];
      if applied[|applied| - 1] == GETACK then TotalSize(before) else Mark(before)
  }

  ghost function LatestAck(r: Replica): int { if r.up == [] then r.lastAck else r.up[|r.up| - 1] }

  ghost predicate InStep(r: Replica, sent: seq<Command>) {
    && r.joined <= |sent|
    && (!r.handshakeDone ==> r.down == [] && r.up == [] && r.applied == [] && r.running.None? && r.lastAck == 0)
    && (r.handshakeDone ==> r.applied + r.down == sent[r.joined..] && r.offset == TotalSize(CountedPart(r)))
    && (r.running.Some? ==> r.applied != [] && r.running.value == r.applied[|r.applied| - 1])
    && LatestAck(r) == Mark(r.applied)
    && AcksBelow(r)
  }

  // No acknowledgement claims more than was executed.
  ghost predicate AcksBelow(r: Replica) {
    0 <= r.lastAck <= TotalSize(r.applied) && forall i :: 0 <= i < |r.up| ==> 0 <= r.up[i] <= TotalSize(r.applied)
  }

  ghost predicate Consistent(s: State) {
    && s.offset == TotalSize(s.sent)
    && forall id :: id in s.replicas ==> InStep(s.replicas[id], s.sent)
  }

  lemma ReceivedInStep(r: Replica, sent: seq<Command>, c: Command)
    requires InStep(r, sent)
    ensures InStep(Received(r, c), sent + [c])
  {
    assert (sent + [c])[r.joined..] == sent[r.joined..] + [c];
  }

  lemma {:induction false} ExecutedInStep(r: Replica, sent: seq<Command>)
    requires InStep(r, sent)
    ensures InStep(Executed(r), sent)
  {
    hide TotalSize;
    hide Mark;
    hide AcksBelow;
    if r.running.None? && r.down != [] {
      var r1 := Executed(r);
      assert r1.applied + r1.down == r.applied + r.down;
      assert CountedPart(r1) == r.applied;
      AcksStayBelow(r);
      MarkPlusOne(r.applied, r.down[0]);
    }
  }

  lemma {:induction false} AcksStayBelow(r: Replica)
    requires AcksBelow(r) && r.running.None? && r.down != []
    requires r.offset == TotalSize(r.applied)
    ensures AcksBelow(Executed(r))
  {
    hide TotalSize;
    hide Size;
    TotalPlusOne(r.applied, r.down[0]);
  }

  lemma {:induction false} MarkPlusOne(a: seq<Command>, c: Command)
    ensures Mark(a + [c]) == if c == GETACK then TotalSize(a) else Mark(a)
  {
    assert (a + [c])[..|a|] == a;
  }

  lemma {:induction false} CountedInStep(r: Replica, sent: seq<Command>)
    requires InStep(r, sent)
    ensures InStep(Counted(r), sent)
  {
    if r.running.Some? {
      var before := r.applied[..|r.applied| - 1];
      assert r.applied == before + [r.running.value];
      TotalPlusOne(before, r.running.value);
    }
  }

  lemma {:induction false} AcknowledgedInStep(r: Replica, sent: seq<Command>)
    requires InStep(r, sent)
    ensures InStep(Acknowledged(r), sent)
  {
  }

  lemma JoinedInStep(r: Replica, sent: seq<Command>)
    requires InStep(r, sent)
    ensures InStep(Joined(r, |sent|), sent)
  {
    assert sent[|sent|..] == [];
  }

  lemma StepKeeps(s: State, e: Event)
    requires Consistent(s)
    ensures Consistent(Step(s, e)) && s.sent <= Step(s, e).sent
  {
    hide InStep;
    hide Executed;
    hide Counted;
    hide Acknowledged;
    hide Received;
    hide Joined;
    match e
    case Connect(id) => NewInStep(s.sent);
    case Handshake(id) =>
      if id in s.replicas {
        JoinedInStep(s.replicas[id], s.sent);
      }
    case Propagate(c) =>
      TotalPlusOne(s.sent, c);
      forall id | id in s.replicas ensures InStep(Received(s.replicas[id], c), s.sent + [c]) {
        ReceivedInStep(s.replicas[id], s.sent, c);
      }
    case Execute(id) =>
      if id in s.replicas {
        ExecutedInStep(s.replicas[id], s.sent);
      }
    case Count(id) =>
      if id in s.replicas {
        CountedInStep(s.replicas[id], s.sent);
      }
    case Acknowledge(id) =>
      if id in s.replicas {
        AcknowledgedInStep(s.replicas[id], s.sent);
      }
  }

  lemma NewInStep(sent: seq<Command>)
    ensures InStep(Replica(false, 0, [], [], -1, None, [], 0), sent)
  {
  }

  lemma {:induction false} RunKeeps(s: State, es: seq<Event>)
    requires Consistent(s)
    ensures Consistent(Run(s, es)) && s.sent <= Run(s, es).sent
    decreases |es|
  {
    if es != [] {
      StepKeeps(s, es[0]);
      RunKeeps(Step(s, es[0]), es[1..]);
    }
  }

  // ---- what WAIT may conclude ----

  // Everything propagated to the replica between its handshake and the moment when `sent` was all.
  ghost predicate HasApplied(r: Replica, sent: seq<Command>) {
    r.joined <= |sent| ==> sent[r.joined..] <= r.applied
  }

  lemma {:induction false} CountedHasApplied(s: State, id: string, sent: seq<Command>)
    requires Consistent(s) && id in s.replicas && sent <= s.sent
    requires s.replicas[id].lastAck >= TotalSize(sent) && sent != []
    ensures HasApplied(s.replicas[id], sent)
  {
    var r := s.replicas[id];
    assert InStep(r, s.sent);
    assert TotalSize(sent) > 0;
    if r.joined <= |sent| {
      assert sent == sent[..r.joined] + sent[r.joined..];
      TotalConcat(sent[..r.joined], sent[r.joined..]);
      assert sent[r.joined..] <= s.sent[r.joined..];
      assert r.applied <= s.sent[r.joined..];
      PrefixBySize(sent[r.joined..], r.applied, s.sent[r.joined..]);
    }
  }

  // WAIT reads the offset in one state of a run and counts in a later one: every replica it counts has
  // applied everything it was sent before the read, whenever it joined.
  lemma WaitIsSafe(before: seq<Event>, after: seq<Event>, id: string)
    requires var s := Run(INITIAL, before);
             var t := Run(s, after);
             s.offset > 0 && id in t.replicas && t.replicas[id].lastAck >= s.offset
    ensures var s := Run(INITIAL, before);
            var t := Run(s, after);
            HasApplied(t.replicas[id], s.sent)
  {
    var s := Run(INITIAL, before);
    RunKeeps(INITIAL, before);
    RunKeeps(s, after);
    CountedHasApplied(Run(s, after), id, s.sent);
  }

  // Exactly when a replica counts, once its acknowledgements have arrived: the bytes it executed before its
  // last GETACK must reach the offset that WAIT read.
  lemma CountsWhen(es: seq<Event>, id: string, target: int)
    requires id in Run(INITIAL, es).replicas && Run(INITIAL, es).replicas[id].up == []
    ensures var r := Run(INITIAL, es).replicas[id];
            r.lastAck >= target <==> Mark(r.applied) >= target
  {
    hide Mark;
    RunKeeps(INITIAL, es);
    assert InStep(Run(INITIAL, es).replicas[id], Run(INITIAL, es).sent);
  }

  // A replica that joined late counts from zero, so WAIT misses it although it has everything: after a
  // last GETACK that it has answered, it counts if and only if the bytes since its handshake reach the
  // offset that WAIT read.
  lemma LateJoiner(s: State, id: string, target: int)
    requires Consistent(s) && id in s.replicas && s.replicas[id].handshakeDone
    requires s.replicas[id].down == [] && s.replicas[id].up == []
    requires s.replicas[id].joined < |s.sent| && s.sent[|s.sent| - 1] == GETACK
    ensures s.replicas[id].lastAck >= target
       <==> s.offset - Size(GETACK) - TotalSize(s.sent[..s.replicas[id].joined]) >= target
  {
    hide Size;
    hide TotalSize;
    hide InStep;
    var r := s.replicas[id];
    AllApplied(r, s.sent);
    MarkAtEnd(s.sent[r.joined..]);
    assert s.sent == s.sent[..r.joined] + s.sent[r.joined..];
    TotalConcat(s.sent[..r.joined], s.sent[r.joined..]);
  }

  lemma AllApplied(r: Replica, sent: seq<Command>)
    requires InStep(r, sent) && r.handshakeDone && r.down == [] && r.up == []
    ensures r.joined <= |sent| && r.lastAck == Mark(sent[r.joined..])
  {
    assert r.applied + [] == r.applied;
  }

  lemma {:induction false} MarkAtEnd(cs: seq<Command>)
    requires cs != [] && cs[|cs| - 1] == GETACK
    ensures Mark(cs) == TotalSize(cs) - Size(GETACK)
  {
    hide Size;
    hide TotalSize;
    assert cs == cs[..|cs| - 1] + [GETACK];
    TotalPlusOne(cs[..|cs| - 1], GETACK);
  }

  // The harm: a replica joins behind the first command and then executes and acknowledges all it is sent.
  // WAIT reads the offset behind that command and does not count the replica.
  lemma WaitMissesLateJoiner(c: Command)
    ensures var s := Run(INITIAL, [Connect("r"), Propagate(c), Handshake("r")]);
            var t := Run(s, [Propagate(GETACK), Execute("r"), Count("r"), Acknowledge("r")]);
            && "r" in Eligible(s) && "r" in t.replicas
            && t.replicas["r"].down == [] && t.replicas["r"].up == [] && HasApplied(t.replicas["r"], t.sent)
            && "r" !in Reached(t, s.offset)
  {
    hide Size;
    Run3(INITIAL, Connect("r"), Propagate(c), Handshake("r"));
    var s := Run(INITIAL, [Connect("r"), Propagate(c), Handshake("r")]);
    assert s.offset == Size(c) && s.sent == [c];
    assert s.replicas["r"] == Replica(true, 0, [], [], 0, None, [], 1);
    Run4(s, Propagate(GETACK), Execute("r"), Count("r"), Acknowledge("r"));
    hide Run;
    AnswersFromZero(s, "r", Run(s, [Propagate(GETACK), Execute("r"), Count("r"), Acknowledge("r")]));
  }

  lemma Run2(s: State, a: Event, b: Event)
    ensures Run(s, [a, b]) == Step(Step(s, a), b)
  {
    hide Step;
    assert [a, b][1..] == [b] && [b][1..] == [];
    assert Run(Step(s, a), [b]) == Step(Step(s, a), b);
  }

  lemma Run3(s: State, a: Event, b: Event, c: Event)
    ensures Run(s, [a, b, c]) == Step(Step(Step(s, a), b), c)
  {
    hide Step;
    assert [a, b, c][1..] == [b, c];
    Run2(Step(s, a), b, c);
  }

  lemma Run4(s: State, a: Event, b: Event, c: Event, d: Event)
    ensures Run(s, [a, b, c, d]) == Step(Step(Step(Step(s, a), b), c), d)
  {
    hide Step;
    assert [a, b, c, d][1..] == [b, c, d];
    Run3(Step(s, a), b, c, d);
  }

  // A replica that joined behind the only command so far answers the next GETACK with zero.
  lemma AnswersFromZero(s: State, id: string, t: State)
    requires id in s.replicas && s.replicas[id] == Replica(true, 0, [], [], 0, None, [], 1) && |s.sent| == 1
    requires t == Step(Step(Step(Step(s, Propagate(GETACK)), Execute(id)), Count(id)), Acknowledge(id))
    ensures id in t.replicas && t.replicas[id].down == [] && t.replicas[id].up == []
    ensures t.replicas[id].lastAck == 0 && HasApplied(t.replicas[id], t.sent)
  {
    hide Size;
    var t1 := Step(s, Propagate(GETACK));
    assert t1.replicas[id] == Replica(true, 0, [GETACK], [], 0, None, [], 1);
    var t2 := Step(t1, Execute(id));
    assert t2.replicas[id] == Replica(true, 0, [], [0], 0, Some(GETACK), [GETACK], 1);
    var t3 := Step(t2, Count(id));
    assert t3.sent[1..] == [GETACK];
  }

  // ---- the replica's side: it counts the bytes it was sent ----

  ghost function Drained(r: Replica): Replica
    decreases |r.down|
  {
    if r.running.Some? || r.down == [] then r else Drained(Counted(Executed(r)))
  }

  // The acknowledgements that commands draw from a replica with the given offset.
  ghost function Answers(offset: int, commands: seq<Command>): seq<int>
    decreases |commands|
  {
    if commands == [] then []
    else (if commands[0] == GETACK then [offset] else []) + Answers(offset + Size(commands[0]), commands[1..])
  }

  // A replica that has executed and counted commands.
  ghost function Handled(r: Replica, commands: seq<Command>): Replica {
    r.(applied := r.applied + commands, offset := r.offset + TotalSize(commands),
       up := r.up + Answers(r.offset, commands))
  }

  lemma {:induction false} HandledNext(r: Replica, commands: seq<Command>)
    requires commands != []
    ensures Handled(Handled(r, [commands[0]]), commands[1..]) == Handled(r, commands)
    ensures Handled(r, [commands[0]])
         == r.(applied := r.applied + [commands[0]], offset := r.offset + Size(commands[0]),
               up := if commands[0] == GETACK then r.up + [r.offset] else r.up)
  {
    hide Size;
    var first := commands[0];
    assert [first][1..] == [];
    assert TotalSize([first]) == Size(first);
    assert (r.applied + [first]) + commands[1..] == r.applied + commands;
    var answer := if first == GETACK then [r.offset] else [];
    assert Answers(r.offset, [first]) == answer;
    assert (r.up + answer) + Answers(r.offset + Size(first), commands[1..]) == r.up + Answers(r.offset, commands);
    assert r.up + [] == r.up;
    var r1 := Handled(r, [first]);
    assert r1.up == r.up + answer && r1.offset == r.offset + Size(first);
    assert Handled(r1, commands[1..]).up == Handled(r, commands).up;
    assert Handled(r1, commands[1..]).offset == Handled(r, commands).offset;
    assert Handled(r1, commands[1..]).applied == Handled(r, commands).applied;
  }

  lemma {:induction false} DrainedIsHandled(r: Replica)
    requires r.running.None?
    ensures Drained(r) == Handled(r, r.down).(down := [])
    decreases |r.down|
  {
    hide Size;
    hide Handled;
    if r.down == [] {
      HandledNone(r);
    } else {
      var r1 := Counted(Executed(r));
      HandledNext(r, r.down);
      DrainedIsHandled(r1);
      assert r1 == Handled(r, [r.down[0]]).(down := r.down[1..]);
      OtherDown(Handled(r, [r.down[0]]), r.down[1..], r.down[1..]);
    }
  }

  lemma HandledNone(r: Replica)
    ensures Handled(r, []) == r
  {
    assert r.applied + [] == r.applied && r.up + [] == r.up;
  }

  lemma OtherDown(r: Replica, commands: seq<Command>, down: seq<Command>)
    ensures Handled(r.(down := down), commands) == Handled(r, commands).(down := down)
  {
  }

  // Executes and counts what can be parsed of a buffer, nothing when parsing panics.  When the buffer is what
  // was under way, and the reader holds each string, that is all of it, and the offset grows by the bytes
  // received.
  method HandleRequests(r: Replica, data: string) returns (panics: bool, r1: Replica, leftover: string)
    requires r.running.None? && |data| <= MAX_ALLOC
    ensures panics <==> Buffered(data).None?
    ensures panics ==> r1 == r
    ensures !panics ==> leftover == Buffered(data).value.1 && r1 == Handled(r, Buffered(data).value.0)
    ensures data == Frames(r.down) && AllNormal(r.down) && AllFit(|data|, Cursor(0, 0), r.down) ==>
            !panics && leftover == "" && r1.(down := []) == Drained(r) && r1.offset == r.offset + |data|
  {
    hide ArrayOf;
    hide Requests;
    hide Frames;
    hide TotalSize;
    hide AllFit;
    hide Handled;
    var commands;
    panics, commands, leftover := ParseMultipleRequests(data);
    r1 := r;
    if data == Frames(r.down) && AllNormal(r.down) && AllFit(|data|, Cursor(0, 0), r.down) {
      CommandsRoundTrip(r.down);
    }
    if panics {
      return;
    }
    HandledNone(r);
    assert commands[0..] == commands;
    for i := 0 to |commands|
      invariant r1.running.None? && Handled(r1, commands[i..]) == Handled(r, commands)
    {
      var command := commands[i];
      assert commands[i..][0] == command && commands[i..][1..] == commands[i + 1..];
      HandledNext(r1, commands[i..]);
      // Route: the command is executed
      r1 := r1.(running := Some(command), applied := r1.applied + [command],
                up := if command == GETACK then r1.up + [r1.offset] else r1.up);
      // AddOffset
      var respCommand := ToRespArray(Some(Words(command)));
      r1 := r1.(offset := r1.offset + |respCommand|, running := None);
    }
    HandledNone(r1);
    assert commands[|commands|..] == [];
    if data == Frames(r.down) && AllNormal(r.down) && AllFit(|data|, Cursor(0, 0), r.down) {
      DrainedIsHandled(r);
      SizeIsLength(r.down);
      HandledOffset(r, commands);
    }
  }

  lemma HandledOffset(r: Replica, commands: seq<Command>)
    ensures Handled(r, commands).offset == r.offset + TotalSize(commands)
  {
  }

  // ---- the master's side ----

  ghost function Reached(s: State, target: int): set<string> {
    set id | id in s.replicas && s.replicas[id].lastAck >= target
  }

  ghost function Eligible(s: State): set<string> {
    set id | id in s.replicas && s.replicas[id].handshakeDone
  }

  // One poll of WAIT: a GETACK to the replicas, unless we are one ourselves, and what happens during the poll.
  ghost function Polled(s: State, isSlave: bool, during: seq<Event>): State {
    Run(if isSlave then s else Step(s, Propagate(GETACK)), during)
  }

  // The state after the first k polls.
  ghost function AfterPolls(s: State, isSlave: bool, polls: seq<seq<Event>>, k: nat): State
    requires k <= |polls|
  {
    if k == 0 then s else Polled(AfterPolls(s, isSlave, polls, k - 1), isSlave, polls[k - 1])
  }

  // WAIT made so many polls: no more than it took for enough replicas to reach the target, and all of them if
  // there never were enough.
  ghost predicate PolledUntil(s: State, isSlave: bool, polls: seq<seq<Event>>, target: int, enough: int, made: nat) {
    && 0 < made <= |polls|
    && (forall k :: 0 < k < made ==> |Reached(AfterPolls(s, isSlave, polls, k), target)| < enough)
    && (|Reached(AfterPolls(s, isSlave, polls, made), target)| < enough ==> made == |polls|)
  }

  class Manager {
    var offset: int
    var replicas: map<string, Replica>
    var isSlave: bool
    var sent: seq<Command>  // the history that the specification speaks of

    function Look(): State
      reads this
    {
      State(offset, sent, replicas)
    }

    constructor (isSlave: bool)
      ensures Look() == INITIAL && Consistent(Look()) && this.isSlave == isSlave
    {
      offset, replicas, sent := 0, map[], [];
      this.isSlave := isSlave;
    }

    method PropagateCommand(command: Command)
      modifies `offset, `replicas, `sent
      ensures Look() == if isSlave then old(Look()) else Step(old(Look()), Propagate(command))
    {
      if isSlave {
        return;
      }
      hide ArrayOf;
      hide Words;
      hide Decimal;
      var respCommand := ToRespArray(Some(Words(command)));
      var todo := replicas.Keys;
      ghost var was := replicas;
      while todo != {}
        invariant todo <= was.Keys && replicas.Keys == was.Keys
        invariant forall id :: id in was ==> replicas[id] == if id in todo then was[id] else Received(was[id], command)
        invariant offset == old(offset) && sent == old(sent)
        decreases |todo|
      {
        var id :| id in todo;
        if replicas[id].handshakeDone {
          replicas := replicas[id := replicas[id].(down := replicas[id].down + [command])];
        }
        todo := todo - {id};
      }
      offset := offset + |respCommand|;
      sent := sent + [command];
      assert replicas == Step(old(Look()), Propagate(command)).replicas;
    }

    method EligibleCount() returns (n: int)
      ensures n == |Eligible(Look())|
    {
      n := 0;
      var todo := replicas.Keys;
      ghost var done: set<string> := {};
      while todo != {}
        invariant todo <= replicas.Keys && n == |done|
        invariant forall id :: id in done <==> id in Eligible(Look()) && id !in todo
        decreases |todo|
      {
        var id :| id in todo;
        if replicas[id].handshakeDone {
          n := n + 1;
          done := done + {id};
        }
        todo := todo - {id};
      }
      assert done == Eligible(Look());
    }

    // The network and the replicas at work while the master waits.
    method Elapse(events: seq<Event>)
      modifies `offset, `replicas, `sent
      ensures Look() == Run(old(Look()), events)
    {
      ghost var all := Run(Look(), events);
      for i := 0 to |events|
        invariant Run(Look(), events[i..]) == all
      {
        assert events[i..][0] == events[i] && events[i..][1..] == events[i + 1..];
        var next := Step(Look(), events[i]);
        offset, replicas, sent := next.offset, next.replicas, next.sent;
      }
    }

    // Asks for acknowledgements and counts the replicas whose last one reaches the target.
    method SendGetAckToReplicas(target: int, during: seq<Event>) returns (n: int)
      modifies `offset, `replicas, `sent
      ensures Look() == Polled(old(Look()), isSlave, during)
      ensures n == |Reached(Look(), target)|
    {
      PropagateCommand(GETACK);
      Elapse(during);
      n := 0;
      var todo := replicas.Keys;
      ghost var done: set<string> := {};
      while todo != {}
        invariant todo <= replicas.Keys && n == |done|
        invariant forall id :: id in done <==> id in Reached(Look(), target) && id !in todo
        decreases |todo|
      {
        var id :| id in todo;
        if replicas[id].lastAck >= target {
          n := n + 1;
          done := done + {id};
        }
        todo := todo - {id};
      }
      assert done == Reached(Look(), target);
    }

    // polls says what happens during each poll; the deadline passes with the last one.  On a slave the offset
    // is not the bytes propagated, and the result says no more than what was acknowledged.
    method WaitForReplicas(minReplicas: int, polls: seq<seq<Event>>) returns (n: int, ghost made: nat)
      requires polls != [] && (!isSlave ==> Consistent(Look()))
      modifies `offset, `replicas, `sent
      ensures !isSlave ==> Consistent(Look()) && old(sent) <= sent
      ensures minReplicas == 0 || Eligible(old(Look())) == {} ==> n == 0 && Look() == old(Look())
      ensures minReplicas == 0 || Eligible(old(Look())) == {} || old(offset) == 0 ==> made == 0
      ensures minReplicas != 0 && Eligible(old(Look())) != {} && old(offset) != 0 ==>
        PolledUntil(old(Look()), isSlave, polls, old(offset), minReplicas, made)
      ensures made <= |polls| && Look() == AfterPolls(old(Look()), isSlave, polls, made)
      ensures minReplicas != 0 && Eligible(old(Look())) != {} ==>
        n == if old(offset) == 0 then |replicas| else |Reached(Look(), old(offset))|
      ensures minReplicas != 0 && Eligible(old(Look())) != {} && !isSlave ==>
        && n == |Reached(Look(), old(offset))|
        && forall id :: id in Reached(Look(), old(offset)) ==> HasApplied(replicas[id], old(sent))
    {
      hide Consistent;
      hide Run;
      hide Step;
      hide HasApplied;
      ghost var start := Look();
      made := 0;
      var eligible := 0;
      if minReplicas != 0 {
        eligible := EligibleCount();
      }
      if eligible == 0 {
        return 0, made;
      }
      var currentOffset := offset;
      if !isSlave {
        NothingSent(Look());
      }
      if currentOffset == 0 {
        return |replicas|, made;
      }
      var i := 0;
      while true
        invariant 0 <= i < |polls| && made == i
        invariant Look() == AfterPolls(start, isSlave, polls, i)
        invariant forall k :: 0 < k <= i ==>
          |Reached(AfterPolls(start, isSlave, polls, k), currentOffset)| < minReplicas
        invariant !isSlave ==> Consistent(Look()) && old(sent) <= sent
        decreases |polls| - i
      {
        if !isSlave {
          PollKeeps(Look(), polls[i]);
        }
        n := SendGetAckToReplicas(currentOffset, polls[i]);
        made := i + 1;
        if n >= minReplicas || i == |polls| - 1 {
          if !isSlave {
            AllHaveApplied(Look(), old(sent), currentOffset);
          }
          return n, made;
        }
        i := i + 1;
      }
    }
  }

  lemma PollKeeps(s: State, during: seq<Event>)
    requires Consistent(s)
    ensures var t := Polled(s, false, during); Consistent(t) && s.sent <= t.sent
  {
    StepKeeps(s, Propagate(GETACK));
    RunKeeps(Step(s, Propagate(GETACK)), during);
  }

  // With offset zero no command was ever propagated: every replica counts, and has what there is.
  lemma NothingSent(s: State)
    requires Consistent(s)
    ensures s.offset == 0 ==> s.sent == [] && Reached(s, 0) == s.replicas.Keys
    ensures s.offset == 0 ==> forall id :: id in s.replicas ==> HasApplied(s.replicas[id], [])
    ensures s.offset == TotalSize(s.sent)
  {
    if s.offset == 0 {
      forall id | id in s.replicas ensures s.replicas[id].lastAck >= 0 && HasApplied(s.replicas[id], []) {
        assert InStep(s.replicas[id], s.sent);
      }
    }
  }

  lemma AllHaveApplied(s: State, sent: seq<Command>, target: int)
    requires Consistent(s) && sent <= s.sent && target == TotalSize(sent) && sent != []
    ensures forall id :: id in Reached(s, target) ==> HasApplied(s.replicas[id], sent)
  {
    forall id | id in Reached(s, target) ensures HasApplied(s.replicas[id], sent) {
      CountedHasApplied(s, id, sent);
    }
  }
}
