/**
 * Commands and the bounded command queues: the per-session queues
 * (`pending_by_session`, capped at 200 by `_enqueue_session_cmd`), the
 * per-student queues (`pending_per_student`, capped at 50 where the
 * handlers trim them), and what a poll takes out of them (the GET branch
 * of `api_commands`).
 */
module Queues {
  import opened Common
  import opened Json

  const SessionQueueCap := 200
  const StudentQueueCap := 50

  /** The members of a command other than its two stamps. */
  type Payload = m: map<string, Json> | "session_id" !in m && "ts" !in m witness map[]

  /**
   * A queued command: a JSON object whose `session_id` and `ts` members,
   * when present, are held apart as its stamps. Two commands are equal
   * exactly when the Python dicts are.
   */
  datatype Command = Command(payload: Payload, sessionId: Option<string>, ts: Option<int>)

  /**
   * `cmd = dict(body); cmd["session_id"] = sid; cmd["ts"] = ts`: the stamps
   * overwrite whatever the body carried under those names.
   */
  function Stamp(body: map<string, Json>, sid: string, ts: int): (c: Command)
    ensures c.sessionId == Some(sid) && c.ts == Some(ts)
    ensures forall k :: k in body && k != "session_id" && k != "ts" ==> k in c.payload && c.payload[k] == body[k]
    ensures forall k :: k in c.payload ==> k in body
  {
    Command(body - {"session_id", "ts"}, Some(sid), Some(ts))
  }

  /** The last `n` elements of `s` (`q[-n:]`), all of `s` when it is shorter. */
  function LastN<T>(s: seq<T>, n: nat): (r: seq<T>)
    ensures |r| == if |s| <= n then |s| else n
    ensures r == s[|s| - |r|..]
  {
    if |s| <= n then s else s[|s| - n..]
  }

  /** Appending to a queue and trimming it: the new command is last and the cap holds. */
  function Enqueued(q: seq<Command>, c: Command, cap: nat): (r: seq<Command>)
    requires cap > 0
    ensures |r| == if |q| < cap then |q| + 1 else cap
    ensures r[|r| - 1] == c
    ensures r[..|r| - 1] == q[|q| - (|r| - 1)..]
  {
    LastN(q + [c], cap)
  }

  /** Every queue of the map holds at most `cap` commands. */
  predicate Within(queues: map<string, seq<Command>>, cap: nat) {
    forall x :: x in queues ==> |queues[x]| <= cap
  }

  /** The map of queues after enqueueing `c` on the queue under `k` (created when missing). */
  function Pushed(queues: map<string, seq<Command>>, k: string, c: Command, cap: nat): (r: map<string, seq<Command>>)
    requires cap > 0
    ensures r.Keys == queues.Keys + {k}
    ensures r[k] == Enqueued(QueueOf(queues, k), c, cap)
    ensures forall x :: x in queues && x != k ==> r[x] == queues[x]
  {
    queues[k := Enqueued(QueueOf(queues, k), c, cap)]
  }

  /** Enqueueing with a cap keeps every queue of a map within that cap. */
  lemma EnqueuedKeepsBound(queues: map<string, seq<Command>>, k: string, c: Command, cap: nat)
    requires cap > 0
    requires Within(queues, cap)
    ensures Within(Pushed(queues, k, c, cap), cap)
  {
  }

  /** Trimming before appending more loses nothing that trimming afterwards would keep. */
  lemma LastNAppend(s: seq<Command>, c: Command, n: nat)
    requires n > 0
    ensures LastN(LastN(s, n) + [c], n) == LastN(s + [c], n)
  {
  }

  /** Enqueues `cs` one after the other, each followed by trimming to `cap`. */
  function EnqueueAll(q: seq<Command>, cs: seq<Command>, cap: nat): seq<Command>
    requires cap > 0
  {
    if cs == [] then q else Enqueued(EnqueueAll(q, cs[..|cs| - 1], cap), cs[|cs| - 1], cap)
  }

  /**
   * However many commands are enqueued, the queue holds the `cap` most
   * recent of all it has been given, oldest first (205 enqueues leave the
   * last 200).
   */
  lemma {:induction false} EnqueueAllKeepsMostRecent(q: seq<Command>, cs: seq<Command>, cap: nat)
    requires cap > 0 && cs != []
    ensures EnqueueAll(q, cs, cap) == LastN(q + cs, cap)
  {
    var init := cs[..|cs| - 1];
    var last := cs[|cs| - 1];
    assert q + cs == (q + init) + [last];
    if init != [] {
      EnqueueAllKeepsMostRecent(q, init, cap);
      LastNAppend(q + init, last, cap);
    }
  }

  /** Python's `str(c.get("session_id"))`: a missing stamp reads as "None". */
  function StampText(c: Command): string {
    if c.sessionId.Some? then c.sessionId.value else "None"
  }

  predicate StampedFor(c: Command, sid: string) {
    StampText(c) == sid
  }

  /** `[c for c in queue if str(c.get("session_id")) == str(sid)]` */
  function Matching(q: seq<Command>, sid: string): (r: seq<Command>)
    ensures forall c :: c in r <==> c in q && StampedFor(c, sid)
  {
    if q == [] then []
    else
      assert forall c :: c in q <==> c == q[0] || c in q[1..] by { assert q == [q[0]] + q[1..]; }
      (if StampedFor(q[0], sid) then [q[0]] else []) + Matching(q[1..], sid)
  }

  /** The commands of `q` stamped for another session (or not stamped), order kept. */
  function NonMatching(q: seq<Command>, sid: string): (r: seq<Command>)
    ensures forall c :: c in r <==> c in q && !StampedFor(c, sid)
  {
    if q == [] then []
    else
      assert forall c :: c in q <==> c == q[0] || c in q[1..] by { assert q == [q[0]] + q[1..]; }
      (if StampedFor(q[0], sid) then [] else [q[0]]) + NonMatching(q[1..], sid)
  }

  /**
   * The commands a poll takes keep their queue order and multiplicity:
   * `Matching` works command by command, and the taken parts of a split
   * queue join up.
   */
  lemma {:induction false} MatchingConcat(a: seq<Command>, b: seq<Command>, sid: string)
    ensures Matching(a + b, sid) == Matching(a, sid) + Matching(b, sid)
  {
    if a == [] {
      assert a + b == b;
    } else {
      assert (a + b)[0] == a[0] && (a + b)[1..] == a[1..] + b;
      MatchingConcat(a[1..], b, sid);
      var m := if StampedFor(a[0], sid) then [a[0]] else [];
      assert Matching(a + b, sid) == m + Matching(a[1..] + b, sid);
      assert m + (Matching(a[1..], sid) + Matching(b, sid)) == (m + Matching(a[1..], sid)) + Matching(b, sid);
    }
  }

  /** What a poll leaves in a queue keeps its order and multiplicity, as `MatchingConcat`. */
  lemma {:induction false} NonMatchingConcat(a: seq<Command>, b: seq<Command>, sid: string)
    ensures NonMatching(a + b, sid) == NonMatching(a, sid) + NonMatching(b, sid)
  {
    if a == [] {
      assert a + b == b;
    } else {
      assert (a + b)[0] == a[0] && (a + b)[1..] == a[1..] + b;
      NonMatchingConcat(a[1..], b, sid);
      var n := if StampedFor(a[0], sid) then [] else [a[0]];
      assert NonMatching(a + b, sid) == n + NonMatching(a[1..] + b, sid);
      assert n + (NonMatching(a[1..], sid) + NonMatching(b, sid)) == (n + NonMatching(a[1..], sid)) + NonMatching(b, sid);
    }
  }

  /** On a single command the two filters of a poll split by its stamp. */
  lemma PartitionSingle(c: Command, sid: string)
    ensures Matching([c], sid) == (if StampedFor(c, sid) then [c] else [])
    ensures NonMatching([c], sid) == (if StampedFor(c, sid) then [] else [c])
  {
    assert [c][1..] == [];
  }

  /** `[c for c in queue if c not in to_take]`: removal by value equality. */
  function RemoveByValue(q: seq<Command>, taken: seq<Command>): (r: seq<Command>)
    ensures forall c :: c in r <==> c in q && c !in taken
    ensures |r| <= |q|
  {
    if q == [] then []
    else
      assert forall c :: c in q <==> c == q[0] || c in q[1..] by { assert q == [q[0]] + q[1..]; }
      (if q[0] in taken then [] else [q[0]]) + RemoveByValue(q[1..], taken)
  }

  /**
   * Removing by value exactly the commands a poll took leaves the commands
   * not stamped for that session, in their order: value equality removes
   * no command that was not taken.
   */
  lemma {:induction false} RemoveTakenLeavesOthers(q: seq<Command>, taken: seq<Command>, sid: string)
    requires forall c :: c in taken ==> StampedFor(c, sid)
    requires forall c :: c in q && StampedFor(c, sid) ==> c in taken
    ensures RemoveByValue(q, taken) == NonMatching(q, sid)
  {
    if q != [] {
      assert q[0] in q;
      RemoveTakenLeavesOthers(q[1..], taken, sid);
    }
  }

  /** A poll loses no command of a queue: it splits the queue into what it takes and what stays. */
  lemma {:induction false} PartitionConserves(q: seq<Command>, sid: string)
    ensures multiset(Matching(q, sid)) + multiset(NonMatching(q, sid)) == multiset(q)
  {
    if q != [] {
      PartitionConserves(q[1..], sid);
      assert q == [q[0]] + q[1..];
    }
  }

  /** A queue after a poll of `sid` holds nothing stamped for `sid`. */
  lemma {:induction false} NonMatchingHasNoMatching(q: seq<Command>, sid: string)
    ensures Matching(NonMatching(q, sid), sid) == []
  {
    if q != [] {
      NonMatchingHasNoMatching(q[1..], sid);
      var rest := NonMatching(q[1..], sid);
      if !StampedFor(q[0], sid) {
        assert NonMatching(q, sid) == [q[0]] + rest;
        assert ([q[0]] + rest)[1..] == rest;
      } else {
        assert NonMatching(q, sid) == rest;
      }
    }
  }

  /** What a step of the poll loop returns, and the queues it leaves. */
  datatype Drained = Drained(out: seq<Command>, queues: map<string, seq<Command>>)

  function QueueOf(queues: map<string, seq<Command>>, sid: string): seq<Command> {
    if sid in queues then queues[sid] else []
  }

  /** What one step of the poll loop takes from the queue of `sid`. */
  function Taken(queues: map<string, seq<Command>>, sid: string): seq<Command> {
    if QueueOf(queues, sid) != [] then Matching(QueueOf(queues, sid), sid) else []
  }

  /** The queues after one step of the poll loop on `sid`. */
  function DrainOne(queues: map<string, seq<Command>>, sid: string): map<string, seq<Command>> {
    var q := QueueOf(queues, sid);
    if q != [] then queues[sid := RemoveByValue(q, Matching(q, sid))] else queues
  }

  /**
   * The session part of a poll: for each session id in turn, when its queue
   * is non-empty, take the commands stamped for it and remove them by value.
   */
  function DrainSessions(queues: map<string, seq<Command>>, sids: seq<string>): Drained {
    if sids == [] then Drained([], queues)
    else
      var rest := DrainSessions(DrainOne(queues, sids[0]), sids[1..]);
      Drained(Taken(queues, sids[0]) + rest.out, rest.queues)
  }

  /** Draining one more session continues from where draining the others stopped. */
  lemma {:induction false} DrainSnoc(queues: map<string, seq<Command>>, sids: seq<string>, sid: string)
    ensures DrainSessions(queues, sids + [sid]).out
      == DrainSessions(queues, sids).out + Taken(DrainSessions(queues, sids).queues, sid)
    ensures DrainSessions(queues, sids + [sid]).queues == DrainOne(DrainSessions(queues, sids).queues, sid)
  {
    if sids == [] {
      assert sids + [sid] == [sid];
      assert Taken(queues, sid) + [] == Taken(queues, sid);
    } else {
      assert (sids + [sid])[0] == sids[0];
      assert (sids + [sid])[1..] == sids[1..] + [sid];
      var next := DrainOne(queues, sids[0]);
      DrainSnoc(next, sids[1..], sid);
      Assoc(Taken(queues, sids[0]), DrainSessions(next, sids[1..]).out, Taken(DrainSessions(next, sids[1..]).queues, sid));
    }
  }

  /** Draining never lengthens a queue, so a bound on every queue survives it. */
  lemma {:induction false} DrainKeepsBound(queues: map<string, seq<Command>>, sids: seq<string>, cap: nat)
    requires Within(queues, cap)
    ensures Within(DrainSessions(queues, sids).queues, cap)
  {
    if sids != [] {
      var q := QueueOf(queues, sids[0]);
      var next := DrainOne(queues, sids[0]);
      DrainKeepsBound(next, sids[1..], cap);
    }
  }

  /** A command stamped for one of the drained sessions and sitting in its queue is taken. */
  lemma {:induction false} DrainTakesStamped(queues: map<string, seq<Command>>, sids: seq<string>, c: Command)
    requires c.sessionId.Some? && c.sessionId.value in sids
    requires c in QueueOf(queues, c.sessionId.value)
    ensures c in DrainSessions(queues, sids).out
  {
    var sid := sids[0];
    var q := QueueOf(queues, sid);
    if sid == c.sessionId.value {
      assert c in Matching(q, sid);
    } else {
      var next := DrainOne(queues, sid);
      assert QueueOf(next, c.sessionId.value) == QueueOf(queues, c.sessionId.value);
      DrainTakesStamped(next, sids[1..], c);
    }
  }

  /** One loop step written as the Python loop body does it. */
  lemma DrainStep(queues: map<string, seq<Command>>, sid: string)
    ensures QueueOf(queues, sid) != [] ==>
      queues[sid := RemoveByValue(QueueOf(queues, sid), Matching(QueueOf(queues, sid), sid))]
      == queues[sid := NonMatching(QueueOf(queues, sid), sid)]
  {
    var q := QueueOf(queues, sid);
    RemoveTakenLeavesOthers(q, Matching(q, sid), sid);
  }

  /**
   * A poll keeps the set of queues, touches only the queues of the polled
   * sessions, returns only commands stamped for one of them, and leaves
   * none of them holding a command stamped for it.
   */
  lemma {:induction false} DrainSessionsFacts(queues: map<string, seq<Command>>, sids: seq<string>)
    ensures DrainSessions(queues, sids).queues.Keys == queues.Keys
    ensures forall x :: x in queues && x !in sids ==> DrainSessions(queues, sids).queues[x] == queues[x]
    ensures forall c :: c in DrainSessions(queues, sids).out ==> StampText(c) in sids
    ensures forall x :: x in sids ==> Matching(QueueOf(DrainSessions(queues, sids).queues, x), x) == []
  {
    if sids != [] {
      var sid := sids[0];
      var q := QueueOf(queues, sid);
      var next := DrainOne(queues, sid);
      DrainStep(queues, sid);
      DrainSessionsFacts(next, sids[1..]);
      var d := DrainSessions(queues, sids);
      assert forall x :: x in sids <==> x == sid || x in sids[1..] by { assert sids == [sid] + sids[1..]; }
      forall x | x in sids ensures Matching(QueueOf(d.queues, x), x) == [] {
        if x !in sids[1..] {
          assert x == sid;
          if q != [] { NonMatchingHasNoMatching(q, sid); }
        }
      }
    }
  }

  /** A queue with nothing stamped for its session gives nothing to a poll and stays so. */
  lemma {:induction false} DrainKeepsCleanQueues(queues: map<string, seq<Command>>, sids: seq<string>, y: string)
    requires Matching(QueueOf(queues, y), y) == []
    ensures Matching(QueueOf(DrainSessions(queues, sids).queues, y), y) == []
    ensures forall c :: c in DrainSessions(queues, sids).out ==> StampText(c) != y
  {
    if sids != [] {
      var sid := sids[0];
      var q := QueueOf(queues, sid);
      var next := DrainOne(queues, sid);
      DrainStep(queues, sid);
      if sid == y && q != [] { NonMatchingHasNoMatching(q, sid); }
      DrainKeepsCleanQueues(next, sids[1..], y);
    }
  }

  /**
   * First poller wins: after a poll over sessions `a`, a poll over `b`
   * returns only commands stamped for sessions in `b` that are not in `a`.
   * A command on a shared session queue reaches one student only.
   */
  lemma FirstPollerWins(queues: map<string, seq<Command>>, a: seq<string>, b: seq<string>)
    ensures forall c :: c in DrainSessions(DrainSessions(queues, a).queues, b).out ==>
      StampText(c) in b && StampText(c) !in a
  {
    var first := DrainSessions(queues, a);
    DrainSessionsFacts(queues, a);
    DrainSessionsFacts(first.queues, b);
    forall c | c in DrainSessions(first.queues, b).out ensures StampText(c) !in a {
      var y := StampText(c);
      if y in a {
        DrainKeepsCleanQueues(first.queues, b, y);
      }
    }
  }

  /** Polling the same sessions again, with nothing enqueued in between, returns nothing. */
  lemma SecondDrainEmpty(queues: map<string, seq<Command>>, sids: seq<string>)
    ensures DrainSessions(DrainSessions(queues, sids).queues, sids).out == []
  {
    DrainSessionsFacts(queues, sids);
    DrainCleanIsEmpty(DrainSessions(queues, sids).queues, sids);
  }

  /** Polling sessions whose queues hold nothing stamped for them returns nothing. */
  lemma {:induction false} DrainCleanIsEmpty(queues: map<string, seq<Command>>, sids: seq<string>)
    requires forall x :: x in sids ==> Matching(QueueOf(queues, x), x) == []
    ensures DrainSessions(queues, sids).out == []
  {
    if sids != [] {
      var sid := sids[0];
      var q := QueueOf(queues, sid);
      var next := DrainOne(queues, sid);
      DrainStep(queues, sid);
      if q != [] { NonMatchingHasNoMatching(q, sid); }
      forall x | x in sids[1..] ensures Matching(QueueOf(next, x), x) == [] {
        assert x in sids;
      }
      DrainCleanIsEmpty(next, sids[1..]);
    }
  }

  /**
   * The per-student part of a poll: a non-empty queue is returned whole and
   * left empty (`pending_per_student[student] = []`).
   */
  function TakeStudent(queues: map<string, seq<Command>>, student: string): (d: Drained)
    ensures d.queues.Keys == queues.Keys
    ensures d.out == QueueOf(queues, student)
    ensures student in queues ==> d.queues[student] == []
    ensures forall x :: x in queues && x != student ==> d.queues[x] == queues[x]
  {
    if student in queues && queues[student] != [] then Drained(queues[student], queues[student := []])
    else Drained([], queues)
  }

  /**
   * The one-shot delivery of `api_policy`: the student's queue is returned
   * and its key removed; an empty student name takes nothing.
   */
  function PopStudent(queues: map<string, seq<Command>>, student: string): (d: Drained)
    ensures d.queues == if student == "" then queues else queues - {student}
    ensures d.out == if student == "" then [] else QueueOf(queues, student)
  {
    if student == "" then Drained([], queues)
    else if student in queues then Drained(queues[student], queues - {student})
    else Drained([], queues)
  }
}
