/**
 * The session engine's handlers over the persisted data document: the
 * reconcile loop, the command senders and the poll of `api_command`,
 * `api_commands`, `api_student_open_tabs` and `api_student_tabs_action`,
 * the session part of `api_policy` and `api_state_for_student`, and the
 * session start/end/upsert/update/delete handlers.
 *
 * Each handler loads the document, changes it in memory and saves it
 * before answering; a handler that answers with an error before that
 * point, or raises, leaves the saved document as it was. `Store` is the
 * saved document, and each outcome function below says what a handler
 * leaves in it. A handler that consults the active sessions first calls
 * `_active_session_ids`, which reconciles; the outcome functions take the
 * set it returns as `act`, and the `Store` methods pass
 * `Reconciled(sessions, active, now)`.
 */
module Engine {
  import opened Common
  import opened Json
  import opened Text
  import opened Schedule
  import opened Sessions
  import opened Queues
  import opened Policy

  // ---------------------------------------------------------------------
  // Requests
  // ---------------------------------------------------------------------

  /** The status a handler answers with. `Failed` is an exception the handler does not catch (HTTP 500). */
  datatype Status = Ok | Forbidden | SessionRequired | NotActive | Invalid | NotFound | Failed

  /** `not u or u["role"] not in ("teacher", "admin")` fails for anyone else. */
  predicate IsStaff(role: Option<string>) {
    role.Some? && role.value in {"teacher", "admin"}
  }

  /** `int(time.time())`: POSIX seconds, truncated toward zero. */
  function EpochSeconds(now: Clock): int {
    if now.epochMicros >= 0 then now.epochMicros / MicrosPerSecond
    else -((-now.epochMicros) / MicrosPerSecond)
  }

  /** The stamp is the whole seconds of the clock, rounded toward zero on both sides of the epoch. */
  lemma EpochSecondsTruncates(now: Clock)
    ensures now.epochMicros >= 0 ==>
      0 <= EpochSeconds(now) * MicrosPerSecond <= now.epochMicros < (EpochSeconds(now) + 1) * MicrosPerSecond
    ensures now.epochMicros < 0 ==>
      (EpochSeconds(now) - 1) * MicrosPerSecond < now.epochMicros <= EpochSeconds(now) * MicrosPerSecond <= 0
  {
  }

  /** `b.get(k)`, `None` read as JSON null. */
  function Get(b: map<string, Json>, k: string): Json {
    if k in b then b[k] else Null
  }

  /**
   * `request.json or {}`: a falsy body reads as an empty object; a truthy
   * body that is not an object makes the next `.get` raise (`None` here).
   */
  function RequestObject(body: Json): (r: Option<map<string, Json>>)
    ensures r.None? <==> Truthy(body) && !body.Obj?
    ensures r.Some? && body.Obj? ==> r.value == body.fields
  {
    if !Truthy(body) then Some(map[]) else if body.Obj? then Some(body.fields) else None
  }

  /** `b.get("session") or b.get("session_id")` */
  function SessionField(b: map<string, Json>): Json {
    if Truthy(Get(b, "session")) then Get(b, "session") else Get(b, "session_id")
  }

  /** `(b.get(k) or "").strip()`; `None` where `.strip()` raises on a truthy non-string. */
  function StrippedField(b: map<string, Json>, k: string): (r: Option<string>)
    ensures r.None? <==> Truthy(Get(b, k)) && !Get(b, k).Str?
    ensures r.Some? && Get(b, k).Str? ==> r.value == Strip(Get(b, k).s)
    ensures r.Some? && !Get(b, k).Str? ==> r.value == ""
  {
    var v := Get(b, k);
    if !Truthy(v) then Some("") else if v.Str? then Some(Strip(v.s)) else None
  }

  /** What `sid not in active` does with a session value of each JSON type. */
  datatype Lookup = Member(sid: string) | NonMember | Unhashable

  /**
   * A string is looked up; lists and objects cannot be hashed and raise;
   * numbers and booleans are never among the (string) active ids.
   */
  function ActiveLookup(sid: Json, act: set<string>): (r: Lookup)
    ensures r.Member? <==> sid.Str? && sid.s in act
    ensures r.Member? ==> r.sid == sid.s
    ensures r.Unhashable? <==> sid.Arr? || sid.Obj?
  {
    match sid
    case Str(s) => if s in act then Member(s) else NonMember
    case Arr(_) => Unhashable
    case Obj(_) => Unhashable
    case _ => NonMember
  }

  /** What `if not cmd or "type" not in cmd` followed by `dict(cmd)` makes of a command. */
  datatype CommandShape = WellFormed(fields: map<string, Json>) | NotACommand | Raises

  /**
   * Only an object with a `type` member is a command. A string holding
   * "type" or a list holding the string "type" passes the membership test
   * and then makes `dict()` raise, as does a truthy number or boolean in
   * the membership test itself.
   */
  function CheckCommand(cmd: Json): (r: CommandShape)
    ensures r.WellFormed? <==> cmd.Obj? && "type" in cmd.fields
    ensures r.WellFormed? ==> r.fields == cmd.fields
    ensures r.NotACommand? ==> !cmd.Obj? || "type" !in cmd.fields
    ensures !Truthy(cmd) ==> r.NotACommand?
  {
    if !Truthy(cmd) then NotACommand
    else
      match cmd
      case Obj(m) => if "type" in m then WellFormed(m) else NotACommand
      case Str(s) => if Contains(s, "type") then Raises else NotACommand
      case Arr(xs) => if Str("type") in xs then Raises else NotACommand
      case _ => Raises
  }

  /**
   * The 500 against the 400: a truthy number or boolean, a string holding
   * "type" and a list holding the string "type" raise; every other
   * non-command is answered as invalid.
   */
  lemma CheckCommandRaises(cmd: Json)
    ensures CheckCommand(cmd).Raises? <==> Truthy(cmd) && (cmd.Num? || cmd.Bool? || (cmd.Str? && Contains(cmd.s, "type"))
                                                         || (cmd.Arr? && Str("type") in cmd.items))
    ensures CheckCommand(cmd).NotACommand? <==>
      !Truthy(cmd) || (cmd.Obj? && "type" !in cmd.fields)
      || (cmd.Str? && !Contains(cmd.s, "type")) || (cmd.Arr? && Str("type") !in cmd.items)
  {
  }

  // ---------------------------------------------------------------------
  // The saved document and what each handler leaves in it
  // ---------------------------------------------------------------------

  /** The parts of the data document the session engine reads and writes. */
  datatype Doc = Doc(
    sessions: seq<Session>,
    active: set<string>,
    bySession: map<string, seq<Command>>,
    perStudent: map<string, seq<Command>>)

  datatype Outcome = Outcome(doc: Doc, status: Status)

  /** `_reconcile_active_sessions` followed by a save. */
  function ReconcileDoc(d: Doc, now: Clock): Doc {
    d.(active := Reconciled(d.sessions, d.active, now))
  }

  /** Where the checks shared by `api_command` and `api_commands` leave a request. */
  datatype Admission = Admitted(b: map<string, Json>, sid: string) | Refused(status: Status)

  /**
   * The checks `api_command` and `api_commands` share, in their order:
   * caller role, request object, session present, session active.
   */
  function Admit(act: set<string>, role: Option<string>, body: Json): Admission {
    if !IsStaff(role) then Refused(Forbidden)
    else
      match RequestObject(body)
      case None => Refused(Failed)
      case Some(b) =>
        var sid := SessionField(b);
        if !Truthy(sid) then Refused(SessionRequired)
        else
          match ActiveLookup(sid, act)
          case Unhashable => Refused(Failed)
          case NonMember => Refused(NotActive)
          case Member(s) => Admitted(b, s)
  }

  /** Each refusal of `Admit` happens exactly when the earlier checks pass and its own fails. */
  lemma AdmitOrder(act: set<string>, role: Option<string>, body: Json)
    ensures Admit(act, role, body) == Refused(Forbidden) <==> !IsStaff(role)
    ensures Admit(act, role, body) == Refused(SessionRequired) <==>
      IsStaff(role) && RequestObject(body).Some? && !Truthy(SessionField(RequestObject(body).value))
    ensures Admit(act, role, body) == Refused(NotActive) <==>
      IsStaff(role) && RequestObject(body).Some? && Truthy(SessionField(RequestObject(body).value))
      && ActiveLookup(SessionField(RequestObject(body).value), act).NonMember?
    ensures Admit(act, role, body).Admitted? <==>
      IsStaff(role) && RequestObject(body).Some?
      && SessionField(RequestObject(body).value).Str?
      && SessionField(RequestObject(body).value).s != ""
      && SessionField(RequestObject(body).value).s in act
    ensures Admit(act, role, body).Admitted? ==>
      Admit(act, role, body).b == RequestObject(body).value
      && Admit(act, role, body).sid == SessionField(RequestObject(body).value).s
  {
  }

  /**
   * `POST /api/command`: after `Admit`, the command must be an object with
   * a `type`. On success the active set is saved, the command is stamped
   * with the session id and the time in seconds, pushed onto the session
   * queue (cap 200) and, when a student is named, onto that student's
   * queue (cap 50). Any other answer leaves the document as it was.
   */
  function CommandOutcome(d: Doc, act: set<string>, role: Option<string>, body: Json, now: Clock): Outcome {
    match Admit(act, role, body)
    case Refused(st) => Outcome(d, st)
    case Admitted(b, s) =>
      match CheckCommand(Get(b, "command"))
      case NotACommand => Outcome(d, Invalid)
      case Raises => Outcome(d, Failed)
      case WellFormed(fields) =>
        match StrippedField(b, "student")
        case None => Outcome(d, Failed)
        case Some(target) =>
          var c := Stamp(fields, s, EpochSeconds(now));
          var bys := Pushed(d.bySession, s, c, SessionQueueCap);
          var per := if target == "" then d.perStudent
                     else Pushed(d.perStudent, target, c, StudentQueueCap);
          Outcome(Doc(d.sessions, act, bys, per), Ok)
  }

  /** A refused or malformed send changes nothing; the command is checked only after the session. */
  lemma CommandChecksInOrder(d: Doc, act: set<string>, role: Option<string>, body: Json, now: Clock)
    ensures CommandOutcome(d, act, role, body, now).status != Ok ==> CommandOutcome(d, act, role, body, now).doc == d
    ensures Admit(act, role, body).Refused? ==> CommandOutcome(d, act, role, body, now).status == Admit(act, role, body).status
    ensures CommandOutcome(d, act, role, body, now).status == Invalid <==>
      Admit(act, role, body).Admitted? && CheckCommand(Get(Admit(act, role, body).b, "command")).NotACommand?
  {
  }

  /**
   * A successful send is a well-formed command for an active session: the
   * session queue gets the stamped command (at most 200 kept) and, when a
   * student is named, so does that student's queue (at most 50 kept); the
   * active set is saved and nothing else changes.
   */
  lemma CommandDelivered(d: Doc, act: set<string>, role: Option<string>, body: Json, now: Clock)
    requires CommandOutcome(d, act, role, body, now).status == Ok
    ensures Admit(act, role, body).Admitted?
    ensures CheckCommand(Get(Admit(act, role, body).b, "command")).WellFormed?
    ensures StrippedField(Admit(act, role, body).b, "student").Some?
    ensures
      var a := Admit(act, role, body);
      var c := Stamp(CheckCommand(Get(a.b, "command")).fields, a.sid, EpochSeconds(now));
      var target := StrippedField(a.b, "student").value;
      CommandOutcome(d, act, role, body, now).doc == Doc(
        d.sessions,
        act,
        Pushed(d.bySession, a.sid, c, SessionQueueCap),
        if target == "" then d.perStudent
        else Pushed(d.perStudent, target, c, StudentQueueCap))
  {
    match Admit(act, role, body)
    case Admitted(b, s) =>
      match CheckCommand(Get(b, "command"))
      case WellFormed(fields) =>
        var t := StrippedField(b, "student");
        assert t.Some?;
        if t.value == "" {
        } else {
        }
  }

  /** Conversely, an admitted, well-formed send whose `student` field can be stripped succeeds. */
  lemma CommandAccepted(d: Doc, act: set<string>, role: Option<string>, body: Json, now: Clock)
    requires Admit(act, role, body).Admitted?
    requires CheckCommand(Get(Admit(act, role, body).b, "command")).WellFormed?
    requires StrippedField(Admit(act, role, body).b, "student").Some?
    ensures CommandOutcome(d, act, role, body, now).status == Ok
  {
  }

  /** After a successful send the stamped command is the newest in its session's queue. */
  lemma CommandNewestOnSession(d: Doc, act: set<string>, role: Option<string>, body: Json, now: Clock)
    requires CommandOutcome(d, act, role, body, now).status == Ok
    ensures Admit(act, role, body).Admitted?
    ensures CheckCommand(Get(Admit(act, role, body).b, "command")).WellFormed?
    ensures
      var a := Admit(act, role, body);
      var c := Stamp(CheckCommand(Get(a.b, "command")).fields, a.sid, EpochSeconds(now));
      var q := CommandOutcome(d, act, role, body, now).doc.bySession;
      a.sid in q && |q[a.sid]| > 0 && q[a.sid][|q[a.sid]| - 1] == c
  {
    CommandDelivered(d, act, role, body, now);
  }

  /**
   * `POST /api/commands/<student>`: after `Admit`, the whole body is the
   * command and only needs a truthy `type`. The stamped body goes onto the
   * session queue (cap 200) and is appended to the student's queue with no
   * cap.
   */
  function PushOutcome(d: Doc, act: set<string>, role: Option<string>, student: string, body: Json, now: Clock): Outcome {
    match Admit(act, role, body)
    case Refused(st) => Outcome(d, st)
    case Admitted(b, s) =>
      if !Truthy(Get(b, "type")) then Outcome(d, Invalid)
      else
        var c := Stamp(b, s, EpochSeconds(now));
        var bys := Pushed(d.bySession, s, c, SessionQueueCap);
        var per := d.perStudent[student := QueueOf(d.perStudent, student) + [c]];
        Outcome(Doc(d.sessions, act, bys, per), Ok)
  }

  /** A refused push changes nothing; the body's `type` is checked only after the session. */
  lemma PushChecksInOrder(d: Doc, act: set<string>, role: Option<string>, student: string, body: Json, now: Clock)
    ensures PushOutcome(d, act, role, student, body, now).status != Ok ==> PushOutcome(d, act, role, student, body, now).doc == d
    ensures Admit(act, role, body).Refused? ==> PushOutcome(d, act, role, student, body, now).status == Admit(act, role, body).status
    ensures PushOutcome(d, act, role, student, body, now).status == Invalid <==>
      Admit(act, role, body).Admitted? && !Truthy(Get(Admit(act, role, body).b, "type"))
  {
  }

  /**
   * A successful push appends the stamped body to the student's queue with
   * no cap: the queue grows by exactly one, whatever its length.
   */
  lemma PushAppendsUncapped(d: Doc, act: set<string>, role: Option<string>, student: string, body: Json, now: Clock)
    requires PushOutcome(d, act, role, student, body, now).status == Ok
    ensures Admit(act, role, body).Admitted?
    ensures
      var a := Admit(act, role, body);
      var c := Stamp(a.b, a.sid, EpochSeconds(now));
      PushOutcome(d, act, role, student, body, now).doc == Doc(
        d.sessions,
        act,
        Pushed(d.bySession, a.sid, c, SessionQueueCap),
        d.perStudent[student := QueueOf(d.perStudent, student) + [c]])
  {
    var a := Admit(act, role, body);
    assert a.Admitted? && Truthy(Get(a.b, "type"));
  }

  /** The `open_tabs` command; stamped with the session only when one was given. */
  function OpenTabsCommand(urls: Json, sid: Option<string>, ts: int): Command {
    Command(map["type" := Str("open_tabs"), "urls" := urls], sid, Some(ts))
  }

  /**
   * `POST /api/student/open_tabs`: a student and some urls are required
   * before the session is looked at; a session, when given, must be
   * active, and only then is the active set saved. The command goes onto
   * the student's queue only (cap 50).
   */
  function OpenTabsOutcome(d: Doc, act: set<string>, role: Option<string>, body: Json, now: Clock): Outcome {
    if !IsStaff(role) then Outcome(d, Forbidden)
    else
      match RequestObject(body)
      case None => Outcome(d, Failed)
      case Some(b) =>
        match StrippedField(b, "student")
        case None => Outcome(d, Failed)
        case Some(student) =>
          var urls := Get(b, "urls");
          var sid := SessionField(b);
          if student == "" || !Truthy(urls) then Outcome(d, Invalid)
          else OpenTabsFor(d, act, student, urls, sid, now)
  }

  /** The rest of `open_tabs` once the student and the urls are there: the session check and the push. */
  function OpenTabsFor(d: Doc, act: set<string>, student: string, urls: Json, sid: Json, now: Clock): Outcome {
    if Truthy(sid) && ActiveLookup(sid, act).Unhashable? then Outcome(d, Failed)
    else if Truthy(sid) && ActiveLookup(sid, act).NonMember? then Outcome(d, NotActive)
    else
      var c := OpenTabsCommand(urls, if Truthy(sid) then Some(sid.s) else None, EpochSeconds(now));
      var per := Pushed(d.perStudent, student, c, StudentQueueCap);
      Outcome(Doc(d.sessions, if Truthy(sid) then act else d.active, d.bySession, per), Ok)
  }

  /** `open_tabs` checks the student and the urls before the session; a refusal changes nothing. */
  lemma OpenTabsChecks(d: Doc, act: set<string>, role: Option<string>, body: Json, now: Clock)
    ensures OpenTabsOutcome(d, act, role, body, now).status != Ok ==> OpenTabsOutcome(d, act, role, body, now).doc == d
    ensures OpenTabsOutcome(d, act, role, body, now).status == Forbidden <==> !IsStaff(role)
    ensures OpenTabsOutcome(d, act, role, body, now).status == NotActive ==>
      (RequestObject(body).Some?
       && StrippedField(RequestObject(body).value, "student") != Some("")
       && Truthy(Get(RequestObject(body).value, "urls")))
  {
  }

  /**
   * A successful `open_tabs` queues for a named student only (at most 50
   * kept), leaves the session queues alone, and stamps the command with the
   * session exactly when one was given.
   */
  lemma OpenTabsQueues(d: Doc, act: set<string>, role: Option<string>, body: Json, now: Clock)
    requires OpenTabsOutcome(d, act, role, body, now).status == Ok
    ensures RequestObject(body).Some?
    ensures StrippedField(RequestObject(body).value, "student").Some?
    ensures Truthy(SessionField(RequestObject(body).value)) ==> SessionField(RequestObject(body).value).Str?
    ensures
      var b := RequestObject(body).value;
      var student := StrippedField(b, "student").value;
      var sid := SessionField(b);
      var c := OpenTabsCommand(Get(b, "urls"), if Truthy(sid) then Some(sid.s) else None, EpochSeconds(now));
      var o := OpenTabsOutcome(d, act, role, body, now).doc;
      student != "" && Truthy(Get(b, "urls")) && (Truthy(sid) ==> sid.s in act)
      && o.sessions == d.sessions && o.bySession == d.bySession
      && o.perStudent == Pushed(d.perStudent, student, c, StudentQueueCap)
      && o.active == (if Truthy(sid) then act else d.active)
  {
    assert IsStaff(role) && RequestObject(body).Some?;
    var b := RequestObject(body).value;
    var student := StrippedField(b, "student");
    assert student.Some? && student.value != "" && Truthy(Get(b, "urls"));
    assert OpenTabsOutcome(d, act, role, body, now) == OpenTabsFor(d, act, student.value, Get(b, "urls"), SessionField(b), now);
  }

  /** The unstamped command of a tabs action. */
  function TabsCommand(action: string, ts: int): Command {
    Command(map["type" := Str(action)], None, Some(ts))
  }

  /** The two actions `tabs_action` accepts. */
  predicate IsTabsAction(action: string) {
    action == "restore_tabs" || action == "close_tabs"
  }

  /**
   * `POST /api/student/tabs_action`: a student and one of the two actions
   * are required; the unstamped command goes onto the student's queue
   * (cap 50).
   */
  function TabsActionOutcome(d: Doc, role: Option<string>, body: Json, now: Clock): Outcome {
    if !IsStaff(role) then Outcome(d, Forbidden)
    else
      match RequestObject(body)
      case None => Outcome(d, Failed)
      case Some(b) =>
        match (StrippedField(b, "student"), StrippedField(b, "action"))
        case (Some(student), Some(action)) =>
          if student == "" || !IsTabsAction(action) then Outcome(d, Invalid)
          else
            var c := TabsCommand(action, EpochSeconds(now));
            Outcome(d.(perStudent := Pushed(d.perStudent, student, c, StudentQueueCap)), Ok)
        case _ => Outcome(d, Failed)
  }

  /** A refused tabs action changes nothing. */
  lemma TabsActionRefusalUnchanged(d: Doc, role: Option<string>, body: Json, now: Clock)
    ensures TabsActionOutcome(d, role, body, now).status != Ok ==> TabsActionOutcome(d, role, body, now).doc == d
  {
  }

  /** A tabs action queues only for a named student and only one of the two actions, and touches nothing else. */
  lemma TabsActionQueues(d: Doc, role: Option<string>, body: Json, now: Clock)
    requires TabsActionOutcome(d, role, body, now).status == Ok
    ensures IsStaff(role) && RequestObject(body).Some?
    ensures StrippedField(RequestObject(body).value, "student").Some?
    ensures StrippedField(RequestObject(body).value, "action").Some?
    ensures
      var b := RequestObject(body).value;
      var student := StrippedField(b, "student").value;
      var action := StrippedField(b, "action").value;
      var c := TabsCommand(action, EpochSeconds(now));
      student != "" && IsTabsAction(action)
      && TabsActionOutcome(d, role, body, now).doc
         == d.(perStudent := Pushed(d.perStudent, student, c, StudentQueueCap))
  {
  }

  /** A poll's answer and the document it saves. */
  datatype Polled = Polled(doc: Doc, out: seq<Command>)

  /** The active sessions that list the student, by id, in stored order (`_student_active_sessions`). */
  function StudentSessionIds(ss: seq<Session>, act: set<string>, student: string): seq<string> {
    Ids(Relevant(ss, act, student))
  }

  /**
   * `GET /api/commands/<student>`: the student's own queue first (emptied),
   * then, for each active session listing the student, the commands of its
   * queue stamped with its id, removed from it; the active set is saved.
   */
  function PollOutcome(d: Doc, act: set<string>, student: string): Polled {
    var t := TakeStudent(d.perStudent, student);
    var dr := DrainSessions(d.bySession, StudentSessionIds(d.sessions, act, student));
    Polled(Doc(d.sessions, act, dr.queues, t.queues), t.out + dr.out)
  }

  /**
   * A poll answers the student's own queue first, then only commands
   * stamped for the student's active sessions; it empties the student's
   * queue, and touches no other student's queue and no queue of a session
   * the student is not in.
   */
  lemma PollDelivers(d: Doc, act: set<string>, student: string)
    ensures |QueueOf(d.perStudent, student)| <= |PollOutcome(d, act, student).out|
    ensures
      var p := PollOutcome(d, act, student);
      var own := QueueOf(d.perStudent, student);
      var sids := StudentSessionIds(d.sessions, act, student);
      p.doc.sessions == d.sessions && p.doc.active == act
      && p.out[..|own|] == own
      && QueueOf(p.doc.perStudent, student) == []
      && (forall x :: x != student ==> QueueOf(p.doc.perStudent, x) == QueueOf(d.perStudent, x))
      && (forall c :: c in p.out[|own|..] ==> StampText(c) in sids)
      && (forall x :: x in d.bySession && x !in sids ==> x in p.doc.bySession && p.doc.bySession[x] == d.bySession[x])
  {
    var t := TakeStudent(d.perStudent, student);
    var sids := StudentSessionIds(d.sessions, act, student);
    var dr := DrainSessions(d.bySession, sids);
    DrainSessionsFacts(d.bySession, sids);
    assert (t.out + dr.out)[..|t.out|] == t.out;
    assert (t.out + dr.out)[|t.out|..] == dr.out;
  }

  /**
   * Conversely, a poll delivers every command that sits in the queue of
   * one of the student's active sessions and is stamped for it.
   */
  lemma PollTakesStamped(d: Doc, act: set<string>, student: string, c: Command)
    requires c.sessionId.Some? && c.sessionId.value in StudentSessionIds(d.sessions, act, student)
    requires c in QueueOf(d.bySession, c.sessionId.value)
    ensures c in PollOutcome(d, act, student).out
  {
    DrainTakesStamped(d.bySession, StudentSessionIds(d.sessions, act, student), c);
  }

  /**
   * A second poll by the same student at the same instant, with nothing
   * sent in between, returns nothing: the second reconcile changes nothing
   * and the first poll took everything stamped for those sessions.
   */
  lemma SecondPollEmpty(d: Doc, student: string, now: Clock)
    ensures
      var p := PollOutcome(d, Reconciled(d.sessions, d.active, now), student);
      PollOutcome(p.doc, Reconciled(p.doc.sessions, p.doc.active, now), student).out == []
  {
    var act := Reconciled(d.sessions, d.active, now);
    var p := PollOutcome(d, act, student);
    ReconcileIdempotent(d.sessions, d.active, now);
    assert Reconciled(p.doc.sessions, p.doc.active, now) == act;
    SecondDrainEmpty(d.bySession, StudentSessionIds(d.sessions, act, student));
  }

  // ---------------------------------------------------------------------
  // Queue bounds
  // ---------------------------------------------------------------------

  /** Every session queue holds at most 200 commands and every student queue at most 50. */
  predicate Bounded(d: Doc) {
    Within(d.bySession, SessionQueueCap) && Within(d.perStudent, StudentQueueCap)
  }

  /** `api_command` keeps every queue within its cap. */
  lemma CommandKeepsBounded(d: Doc, act: set<string>, role: Option<string>, body: Json, now: Clock)
    requires Bounded(d)
    ensures Bounded(CommandOutcome(d, act, role, body, now).doc)
  {
    if CommandOutcome(d, act, role, body, now).status == Ok {
      CommandDelivered(d, act, role, body, now);
      var a := Admit(act, role, body);
      var c := Stamp(CheckCommand(Get(a.b, "command")).fields, a.sid, EpochSeconds(now));
      EnqueuedKeepsBound(d.bySession, a.sid, c, SessionQueueCap);
      EnqueuedKeepsBound(d.perStudent, StrippedField(a.b, "student").value, c, StudentQueueCap);
    } else {
      CommandChecksInOrder(d, act, role, body, now);
    }
  }

  /** `open_tabs` keeps every queue within its cap. */
  lemma OpenTabsKeepsBounded(d: Doc, act: set<string>, role: Option<string>, body: Json, now: Clock)
    requires Bounded(d)
    ensures Bounded(OpenTabsOutcome(d, act, role, body, now).doc)
  {
    if OpenTabsOutcome(d, act, role, body, now).status == Ok {
      OpenTabsQueues(d, act, role, body, now);
      var b := RequestObject(body).value;
      var sid := SessionField(b);
      var c := OpenTabsCommand(Get(b, "urls"), if Truthy(sid) then Some(sid.s) else None, EpochSeconds(now));
      EnqueuedKeepsBound(d.perStudent, StrippedField(b, "student").value, c, StudentQueueCap);
    } else {
      OpenTabsChecks(d, act, role, body, now);
    }
  }

  /** `tabs_action` keeps every queue within its cap. */
  lemma TabsActionKeepsBounded(d: Doc, role: Option<string>, body: Json, now: Clock)
    requires Bounded(d)
    ensures Bounded(TabsActionOutcome(d, role, body, now).doc)
  {
    if TabsActionOutcome(d, role, body, now).status == Ok {
      TabsActionQueues(d, role, body, now);
      var b := RequestObject(body).value;
      var c := TabsCommand(StrippedField(b, "action").value, EpochSeconds(now));
      EnqueuedKeepsBound(d.perStudent, StrippedField(b, "student").value, c, StudentQueueCap);
    } else {
      TabsActionRefusalUnchanged(d, role, body, now);
    }
  }

  /** A poll only shortens queues, so it keeps every queue within its cap. */
  lemma PollKeepsBounded(d: Doc, act: set<string>, student: string)
    requires Bounded(d)
    ensures Bounded(PollOutcome(d, act, student).doc)
  {
    DrainKeepsBound(d.bySession, StudentSessionIds(d.sessions, act, student), SessionQueueCap);
  }

  /**
   * `api_commands` does not keep the student cap: a successful push onto a
   * student queue already at 50 leaves it at 51.
   */
  lemma PushGrowsPastCap(d: Doc, act: set<string>, role: Option<string>, student: string, body: Json, now: Clock)
    requires PushOutcome(d, act, role, student, body, now).status == Ok
    requires |QueueOf(d.perStudent, student)| == StudentQueueCap
    ensures !Bounded(PushOutcome(d, act, role, student, body, now).doc)
  {
    var a := Admit(act, role, body);
    assert a.Admitted? && Truthy(Get(a.b, "type"));
    var c := Stamp(a.b, a.sid, EpochSeconds(now));
    var per := PushOutcome(d, act, role, student, body, now).doc.perStudent;
    assert per == d.perStudent[student := QueueOf(d.perStudent, student) + [c]];
    assert student in per && |per[student]| == StudentQueueCap + 1;
  }

  /** A teacher's `notify` push for the active `sess_1` is accepted. */
  lemma PushNotifyAccepted(d: Doc, now: Clock)
    ensures
      var body := Obj(map["session" := Str("sess_1"), "type" := Str("notify")]);
      PushOutcome(d, {"sess_1"}, Some("teacher"), "ada", body, now).status == Ok
  {
    var body := Obj(map["session" := Str("sess_1"), "type" := Str("notify")]);
    assert SessionField(body.fields) == Str("sess_1");
    var a := Admit({"sess_1"}, Some("teacher"), body);
    assert a.Admitted? && a.b == body.fields;
    assert Get(a.b, "type") == Str("notify");
  }

  /** The cap is overrun from a bounded document: 50 commands for "ada", then one more push. */
  lemma PushOverrunsStudentCap(d: Doc, c: Command, now: Clock)
    requires d.bySession == map[] && d.perStudent == map["ada" := seq(StudentQueueCap, _ => c)]
    ensures Bounded(d)
    ensures
      var body := Obj(map["session" := Str("sess_1"), "type" := Str("notify")]);
      var o := PushOutcome(d, {"sess_1"}, Some("teacher"), "ada", body, now);
      o.status == Ok && !Bounded(o.doc)
  {
    var body := Obj(map["session" := Str("sess_1"), "type" := Str("notify")]);
    PushNotifyAccepted(d, now);
    assert QueueOf(d.perStudent, "ada") == d.perStudent["ada"];
    PushGrowsPastCap(d, {"sess_1"}, Some("teacher"), "ada", body, now);
  }

  // ---------------------------------------------------------------------
  // Policy, state and the session handlers
  // ---------------------------------------------------------------------

  /** The reply of `api_policy` and the document it saves. */
  datatype PolicyReply = PolicyReply(
    doc: Doc,
    focusMode: bool,
    allowlist: seq<string>,
    teacherBlocks: seq<string>,
    pending: seq<Command>,
    activeForStudent: seq<string>)

  /**
   * `POST /api/policy`: the class policy, with the student's focus
   * override when there is one, under the current scene; the student's
   * pending commands are handed over and their key removed (the only
   * change saved); the student's active sessions are reported from `act`,
   * a reconcile that is not saved. `None` where the handler raises.
   */
  function PolicyOutcome(d: Doc, act: set<string>, body: Json, cls: ClassPolicy,
                         focusOverride: Option<Json>, scenes: SceneStore): (r: Option<PolicyReply>)
    ensures r.Some? <==> RequestObject(body).Some? && StrippedField(RequestObject(body).value, "student").Some?
    ensures r.Some? ==> (
      var student := StrippedField(RequestObject(body).value, "student").value;
      var base := cls.(focusMode := if student != "" && focusOverride.Some? then Truthy(focusOverride.value) else cls.focusMode);
      r.value.doc == d.(perStudent := if student == "" then d.perStudent else d.perStudent - {student})
      && r.value.pending == (if student == "" then [] else QueueOf(d.perStudent, student))
      && r.value.activeForStudent == (if student == "" then [] else StudentSessionIds(d.sessions, act, student))
      && ClassPolicy(r.value.focusMode, r.value.allowlist, r.value.teacherBlocks) == MergeScene(base, scenes))
  {
    match RequestObject(body)
    case None => None
    case Some(b) =>
      match StrippedField(b, "student")
      case None => None
      case Some(student) => Some(PolicyFor(d, act, student, cls, focusOverride, scenes))
  }

  /** The reply of `api_policy` once the student field has been read. */
  function PolicyFor(d: Doc, act: set<string>, student: string, cls: ClassPolicy,
                     focusOverride: Option<Json>, scenes: SceneStore): PolicyReply {
    var focus := if student != "" && focusOverride.Some? then Truthy(focusOverride.value) else cls.focusMode;
    var p := PopStudent(d.perStudent, student);
    var merged := MergeScene(cls.(focusMode := focus), scenes);
    var ids := if student == "" then [] else StudentSessionIds(d.sessions, act, student);
    PolicyReply(d.(perStudent := p.queues), merged.focusMode, merged.allowlist, merged.teacherBlocks, p.out, ids)
  }

  /** `POST /api/sessions/<sid>/start`. */
  function StartOutcome(d: Doc, sid: string): (o: Outcome)
    ensures o.status == NotFound <==> !HasId(d.sessions, sid)
    ensures o.status == NotFound ==> o.doc == d
    ensures o.status == Ok ==> o.doc.active == d.active + {sid} && o.doc.sessions == SetManual(d.sessions, sid, true)
    ensures o.doc.bySession == d.bySession && o.doc.perStudent == d.perStudent
    ensures o.status in {Ok, NotFound}
  {
    if !HasId(d.sessions, sid) then Outcome(d, NotFound)
    else Outcome(d.(active := d.active + {sid}, sessions := SetManual(d.sessions, sid, true)), Ok)
  }

  /**
   * `POST /api/sessions/<sid>/end`: succeeds for any id. The id leaves the
   * active set, every session carrying it gets `manual` false, and the
   * queues stay.
   */
  function EndDoc(d: Doc, sid: string): (r: Doc)
    ensures r.active == d.active - {sid} && sid !in r.active
    ensures r.sessions == SetManual(d.sessions, sid, false)
    ensures forall i :: 0 <= i < |d.sessions| && d.sessions[i].id == sid ==> !r.sessions[i].manual
    ensures r.bySession == d.bySession && r.perStudent == d.perStudent
  {
    d.(active := d.active - {sid}, sessions := SetManual(d.sessions, sid, false))
  }

  /** A started session stays active through every later reconcile, whatever the clock. */
  lemma StartKeepsActive(d: Doc, sid: string, later: Clock)
    requires StartOutcome(d, sid).status == Ok
    ensures sid in ReconcileDoc(StartOutcome(d, sid).doc, later).active
  {
    StartedSurvivesReconcile(d.sessions, d.active, sid, later);
  }

  /** After `end`, the next reconcile brings the session back exactly when its schedule matches. */
  lemma EndLeavesScheduleOnly(d: Doc, sid: string, now: Clock)
    requires sid in ById(d.sessions)
    ensures sid in ReconcileDoc(EndDoc(d, sid), now).active <==> ScheduledActive(ById(d.sessions)[sid].schedule, now)
  {
    EndedReturnsOnlyBySchedule(d.sessions, d.active, sid, now);
  }

  /** `POST /api/sessions` body, decoded; `None` where the key is missing or falsy. */
  datatype SessionDraft = SessionDraft(
    id: Option<string>,
    name: Option<string>,
    teacher: Option<string>,
    students: Option<seq<string>>,
    controls: Option<Controls>,
    schedule: Option<seq<Entry>>,
    manual: bool)

  /**
   * The session `api_sessions` builds: each missing or falsy field takes
   * its default, and a missing id is "sess_" followed by `suffix` (eight
   * hex digits of a random UUID).
   */
  function DraftSession(draft: SessionDraft, suffix: string): (s: Session)
    ensures s.id == if draft.id.Some? && draft.id.value != "" then draft.id.value else "sess_" + suffix
    ensures s.name != ""
    ensures draft.name.Some? && draft.name.value != "" ==> s.name == draft.name.value
    ensures draft.name.None? ==> s.name == "New Session"
    ensures draft.teacher.Some? ==> s.teacher == draft.teacher.value
    ensures draft.teacher.None? ==> s.teacher == ""
    ensures draft.students.Some? ==> s.students == draft.students.value
    ensures draft.students.None? ==> s.students == []
    ensures draft.controls.Some? ==> s.controls == draft.controls.value
    ensures draft.controls.None? ==> s.controls == DefaultControls
    ensures draft.schedule.Some? ==> s.schedule == draft.schedule.value
    ensures draft.schedule.None? ==> s.schedule == []
    ensures s.manual == draft.manual
  {
    Session(
      if draft.id.Some? && draft.id.value != "" then draft.id.value else "sess_" + suffix,
      if draft.name.Some? && draft.name.value != "" then draft.name.value else "New Session",
      if draft.teacher.Some? then draft.teacher.value else "",
      if draft.students.Some? then draft.students.value else [],
      if draft.controls.Some? then draft.controls.value else DefaultControls,
      if draft.schedule.Some? then draft.schedule.value else [],
      draft.manual)
  }

  /** `DELETE /api/sessions/<sid>`: the session and its active mark go; its queue stays. */
  function DeleteDoc(d: Doc, sid: string): (r: Doc)
    ensures r.bySession == d.bySession && r.perStudent == d.perStudent
    ensures r.active == d.active - {sid}
    ensures forall s :: s in r.sessions <==> s in d.sessions && s.id != sid
  {
    d.(sessions := Without(d.sessions, sid), active := d.active - {sid})
  }

  /** A deleted session never comes back by reconciling: its schedule went with it. */
  lemma DeletedNeverReactivates(d: Doc, sid: string, now: Clock)
    ensures sid !in ReconcileDoc(DeleteDoc(d, sid), now).active
  {
    WithoutById(d.sessions, sid);
    ByIdKeys(Without(d.sessions, sid));
    ReconcileUndefinedUntouched(Without(d.sessions, sid), d.active - {sid}, now, sid);
  }

  /**
   * Deleting a session keeps its queue, and the poll right after the
   * delete, by any student and whatever the active set, takes nothing
   * from it: no remaining session carries the id.
   */
  lemma DeletedQueueOrphaned(d: Doc, sid: string, act: set<string>, student: string)
    requires sid in d.bySession
    ensures sid in PollOutcome(DeleteDoc(d, sid), act, student).doc.bySession
    ensures PollOutcome(DeleteDoc(d, sid), act, student).doc.bySession[sid] == d.bySession[sid]
  {
    var e := DeleteDoc(d, sid);
    var rel := Relevant(e.sessions, act, student);
    var sids := StudentSessionIds(e.sessions, act, student);
    forall i | 0 <= i < |sids|
      ensures sids[i] != sid
    {
      assert rel[i] in rel;
    }
    DrainSessionsFacts(e.bySession, sids);
  }

  /**
   * The queue a delete left behind is not dead: once a session with the
   * same id is created again and is active, a poll by a student it lists
   * delivers the old commands stamped for that id.
   */
  lemma RecreatedRevivesQueue(d: Doc, s: Session, act: set<string>, student: string, c: Command)
    requires s.id in act && student in s.students
    requires c.sessionId == Some(s.id) && c in QueueOf(d.bySession, s.id)
    ensures
      var e := DeleteDoc(d, s.id);
      c in PollOutcome(e.(sessions := Upserted(e.sessions, s)), act, student).out
  {
    var e := DeleteDoc(d, s.id);
    var f := e.(sessions := Upserted(e.sessions, s));
    var kept := Without(e.sessions, s.id);
    RelevantConcat(kept, [s], act, student);
    RelevantSingle(s, act, student);
    var rel := Relevant(f.sessions, act, student);
    assert rel[|rel| - 1] == s;
    assert StudentSessionIds(f.sessions, act, student)[|rel| - 1] == s.id;
    PollTakesStamped(f, act, student, c);
  }

  /** A session whose only entry is a ten-minute one-off window is active ten seconds in and not seven hundred seconds in. */
  lemma OneOffWindow(s: Session, active: set<string>, t: int, weekday: int, dayMicros: int)
    requires !s.manual
    requires s.schedule == [OneOff(Some(t), Some(t + 600 * MicrosPerSecond))]
    ensures s.id in Reconciled([s], active, Clock(weekday, dayMicros, t + 10 * MicrosPerSecond))
    ensures s.id !in Reconciled([s], active, Clock(weekday, dayMicros, t + 700 * MicrosPerSecond))
  {
    assert ById([s]) == map[s.id := s];
    assert ScheduledActive(s.schedule, Clock(weekday, dayMicros, t + 10 * MicrosPerSecond));
    assert !ScheduledActive(s.schedule, Clock(weekday, dayMicros, t + 700 * MicrosPerSecond));
  }

  /** A teacher's `notify` command for an active session is queued on it, stamped for it. */
  lemma NotifyQueued(d: Doc, act: set<string>, now: Clock)
    requires "sess_1" in act
    ensures
      var cmd := Obj(map["type" := Str("notify"), "message" := Str("hi")]);
      var body := Obj(map["session" := Str("sess_1"), "command" := cmd]);
      var sent := CommandOutcome(d, act, Some("teacher"), body, now);
      sent.status == Ok && sent.doc.sessions == d.sessions && sent.doc.active == act
      && Stamp(cmd.fields, "sess_1", EpochSeconds(now)) in QueueOf(sent.doc.bySession, "sess_1")
  {
    var cmd := Obj(map["type" := Str("notify"), "message" := Str("hi")]);
    var body := Obj(map["session" := Str("sess_1"), "command" := cmd]);
    var a := Admit(act, Some("teacher"), body);
    assert SessionField(body.fields) == Str("sess_1");
    assert a.Admitted? && a.sid == "sess_1" && a.b == body.fields;
    assert Get(a.b, "command") == cmd && CheckCommand(cmd).WellFormed?;
    assert StrippedField(a.b, "student") == Some("");
    CommandAccepted(d, act, Some("teacher"), body, now);
    CommandNewestOnSession(d, act, Some("teacher"), body, now);
    CommandDelivered(d, act, Some("teacher"), body, now);
  }

  /**
   * A teacher's `notify` command for an active session that lists a
   * student reaches that student's next poll.
   */
  lemma NotifyReachesStudent(s: Session, d: Doc, act: set<string>, now: Clock)
    requires s.id == "sess_1" && "alice" in s.students
    requires d.sessions == [s] && "sess_1" in act
    ensures
      var cmd := Obj(map["type" := Str("notify"), "message" := Str("hi")]);
      var body := Obj(map["session" := Str("sess_1"), "command" := cmd]);
      var sent := CommandOutcome(d, act, Some("teacher"), body, now);
      sent.status == Ok && sent.doc.sessions == d.sessions && sent.doc.active == act
      && Stamp(cmd.fields, "sess_1", EpochSeconds(now)) in PollOutcome(sent.doc, act, "alice").out
  {
    var cmd := Obj(map["type" := Str("notify"), "message" := Str("hi")]);
    var body := Obj(map["session" := Str("sess_1"), "command" := cmd]);
    NotifyQueued(d, act, now);
    var sent := CommandOutcome(d, act, Some("teacher"), body, now);
    assert Relevant(d.sessions, act, "alice") == [s];
    PollTakesStamped(sent.doc, act, "alice", Stamp(cmd.fields, "sess_1", EpochSeconds(now)));
  }

  /** The same command for a session that is not active is refused as such. */
  lemma NotifyRefusedWhenInactive(d: Doc, act: set<string>, now: Clock)
    requires "sess_1" !in act
    ensures
      var cmd := Obj(map["type" := Str("notify"), "message" := Str("hi")]);
      var body := Obj(map["session" := Str("sess_1"), "command" := cmd]);
      CommandOutcome(d, act, Some("teacher"), body, now).status == NotActive
  {
    var cmd := Obj(map["type" := Str("notify"), "message" := Str("hi")]);
    var body := Obj(map["session" := Str("sess_1"), "command" := cmd]);
    assert SessionField(body.fields) == Str("sess_1");
  }

  /**
   * The scenario of a one-off session: with a window of ten minutes from
   * `t`, the session is active ten seconds in, a `notify` command sent to
   * it then reaches an enrolled student's next poll, and seven hundred
   * seconds in, sending to it fails as not active.
   */
  lemma OneOffScenario(s: Session, d: Doc, t: int, weekday: int, dayMicros: int)
    requires s.id == "sess_1" && "alice" in s.students && !s.manual
    requires s.schedule == [OneOff(Some(t), Some(t + 600 * MicrosPerSecond))]
    requires d.sessions == [s]
    ensures
      var now := Clock(weekday, dayMicros, t + 10 * MicrosPerSecond);
      var act := Reconciled(d.sessions, d.active, now);
      var cmd := Obj(map["type" := Str("notify"), "message" := Str("hi")]);
      var body := Obj(map["session" := Str("sess_1"), "command" := cmd]);
      var sent := CommandOutcome(d, act, Some("teacher"), body, now);
      "sess_1" in act && sent.status == Ok
      && Stamp(cmd.fields, "sess_1", EpochSeconds(now))
         in PollOutcome(sent.doc, Reconciled(sent.doc.sessions, sent.doc.active, now), "alice").out
    ensures
      var later := Clock(weekday, dayMicros, t + 700 * MicrosPerSecond);
      var cmd := Obj(map["type" := Str("notify"), "message" := Str("hi")]);
      var body := Obj(map["session" := Str("sess_1"), "command" := cmd]);
      CommandOutcome(d, Reconciled(d.sessions, d.active, later), Some("teacher"), body, later).status == NotActive
  {
    var now := Clock(weekday, dayMicros, t + 10 * MicrosPerSecond);
    OneOffWindow(s, d.active, t, weekday, dayMicros);
    var act := Reconciled(d.sessions, d.active, now);
    NotifyReachesStudent(s, d, act, now);
    ReconcileIdempotent(d.sessions, d.active, now);
    var later := Clock(weekday, dayMicros, t + 700 * MicrosPerSecond);
    NotifyRefusedWhenInactive(d, Reconciled(d.sessions, d.active, later), later);
  }

  // ---------------------------------------------------------------------
  // Loops that build values
  // ---------------------------------------------------------------------

  /**
   * The loop of `_reconcile_active_sessions` over `sessions_by_id`: a
   * matching schedule adds the id, a non-matching one removes it unless
   * `manual` is set.
   */
  method ReconcileActive(ss: seq<Session>, active: set<string>, now: Clock) returns (act: set<string>)
    ensures act == Reconciled(ss, active, now)
  {
    var byId := ById(ss);
    act := active;
    var todo := byId.Keys;
    ghost var done: set<string> := {};
    while todo != {}
      invariant todo + done == byId.Keys && todo !! done
      invariant forall x :: x in done ==> (x in act <==> Keeps(byId[x], x in active, now))
      invariant forall x :: x !in done ==> (x in act <==> x in active)
      decreases todo
    {
      var sid :| sid in todo;
      var on := IsScheduledActive(byId[sid].schedule, now);
      if on {
        act := act + {sid};
      } else if sid in act && !byId[sid].manual {
        act := act - {sid};
      }
      todo := todo - {sid};
      done := done + {sid};
    }
  }

  /** `sorted(list(allow))`: the strings of a set in increasing order. */
  method SortedList(allow: set<string>) returns (l: seq<string>)
    ensures StrictlySorted(l)
    ensures forall u :: u in l <==> u in allow
  {
    l := [];
    var rest := allow;
    while rest != {}
      invariant rest <= allow
      invariant StrictlySorted(l)
      invariant forall u :: u in l <==> u in allow && u !in rest
      decreases rest
    {
      var u :| u in rest;
      l := Insert(u, l);
      rest := rest - {u};
    }
  }

  /**
   * The loop of `_effective_state_for_student`, over the active sessions
   * listing the student, collecting the allowlist in a set and sorting it
   * at the end; it computes `EffectiveStateFor`.
   */
  method ComposeEffectiveState(ss: seq<Session>, active: set<string>, student: string) returns (e: EffectiveState)
    ensures e == EffectiveStateFor(ss, active, student)
  {
    var rel := Relevant(ss, active, student);
    var ids := Ids(rel);
    var focus, exam, url := false, false, "";
    var allow: set<string> := {};
    ghost var acc := EffectiveState(false, [], false, "", ids);
    for i := 0 to |rel|
      invariant acc == EffectiveState(focus, acc.allowlist, exam, url, ids)
      invariant StrictlySorted(acc.allowlist)
      invariant forall u :: u in allow <==> u in acc.allowlist
      invariant MergeFrom(acc, rel[i..]) == EffectiveStateFor(ss, active, student)
    {
      var c := rel[i].controls;
      assert rel[i..][1..] == rel[i + 1..];
      if c.focusMode { focus := true; }
      if c.examMode {
        exam := true;
        if url == "" && c.examUrl != "" { url := c.examUrl; }
      }
      allow := allow + set u | u in c.allowlist;
      acc := EffectiveState(focus, InsertAll(c.allowlist, acc.allowlist), exam, url, ids);
    }
    assert rel[|rel|..] == [];
    var sorted := SortedList(allow);
    SortedListUnique(sorted, acc.allowlist);
    e := EffectiveState(focus, sorted, exam, url, ids);
  }

  // ---------------------------------------------------------------------
  // The saved document
  // ---------------------------------------------------------------------

  class Store {
    var sessions: seq<Session>
    var active: set<string>
    var bySession: map<string, seq<Command>>
    var perStudent: map<string, seq<Command>>

    function Snapshot(): Doc
      reads this
    {
      Doc(sessions, active, bySession, perStudent)
    }

    constructor ()
      ensures Snapshot() == Doc([], {}, map[], map[])
    {
      sessions := [];
      active := {};
      bySession := map[];
      perStudent := map[];
    }

    /** `GET /api/sessions/active` (and the list endpoint): reconcile and save. */
    method Reconcile(now: Clock)
      modifies this
      ensures Snapshot() == ReconcileDoc(old(Snapshot()), now)
    {
      active := ReconcileActive(sessions, active, now);
    }

    /** `_active_session_ids`: reconcile in place and answer the active set. */
    method ActiveSessionIds(now: Clock) returns (ids: set<string>)
      modifies this
      ensures Snapshot() == ReconcileDoc(old(Snapshot()), now)
      ensures ids == active
    {
      Reconcile(now);
      ids := active;
    }

    /**
     * `_student_active_sessions`: reconcile (twice, which is once) and list
     * the active sessions naming the student.
     */
    method StudentActiveSessions(student: string, now: Clock) returns (ids: seq<string>)
      modifies this
      ensures Snapshot() == ReconcileDoc(old(Snapshot()), now)
      ensures ids == StudentSessionIds(sessions, active, student)
    {
      Reconcile(now);
      var act := ActiveSessionIds(now);
      ReconcileIdempotent(old(sessions), old(active), now);
      ids := Ids(Relevant(sessions, act, student));
    }

    /** `_enqueue_session_cmd`: append, then drop from the front down to 200. */
    method EnqueueSession(sid: string, c: Command)
      modifies this
      ensures bySession == Pushed(old(bySession), sid, c, SessionQueueCap)
      ensures sessions == old(sessions) && active == old(active) && perStudent == old(perStudent)
    {
      var q := QueueOf(bySession, sid);
      q := q + [c];
      if |q| > SessionQueueCap {
        q := q[|q| - SessionQueueCap..];
      }
      bySession := bySession[sid := q];
    }

    /** `arr.append(cmd); arr[:] = arr[-50:]` on a student's queue. */
    method EnqueueStudent(student: string, c: Command)
      modifies this
      ensures perStudent == Pushed(old(perStudent), student, c, StudentQueueCap)
      ensures sessions == old(sessions) && active == old(active) && bySession == old(bySession)
    {
      var arr := QueueOf(perStudent, student);
      arr := arr + [c];
      arr := LastN(arr, StudentQueueCap);
      perStudent := perStudent[student := arr];
    }

    /** `POST /api/command`. */
    method SendCommand(role: Option<string>, body: Json, now: Clock) returns (status: Status)
      modifies this
      ensures Outcome(Snapshot(), status)
        == CommandOutcome(old(Snapshot()), Reconciled(old(sessions), old(active), now), role, body, now)
    {
      var act := ReconcileActive(sessions, active, now);
      var admission := Admit(act, role, body);
      if admission.Refused? { return admission.status; }
      var b := admission.b;
      var shape := CheckCommand(Get(b, "command"));
      if shape.NotACommand? { return Invalid; }
      if shape.Raises? { return Failed; }
      var target := StrippedField(b, "student");
      if target.None? { return Failed; }
      var c := Stamp(shape.fields, admission.sid, EpochSeconds(now));
      active := act;
      EnqueueSession(admission.sid, c);
      if target.value != "" {
        EnqueueStudent(target.value, c);
      }
      return Ok;
    }

    /** `POST /api/commands/<student>`. */
    method PushCommand(role: Option<string>, student: string, body: Json, now: Clock) returns (status: Status)
      modifies this
      ensures Outcome(Snapshot(), status)
        == PushOutcome(old(Snapshot()), Reconciled(old(sessions), old(active), now), role, student, body, now)
    {
      var act := ReconcileActive(sessions, active, now);
      var admission := Admit(act, role, body);
      if admission.Refused? { return admission.status; }
      var b := admission.b;
      if !Truthy(Get(b, "type")) { return Invalid; }
      var c := Stamp(b, admission.sid, EpochSeconds(now));
      active := act;
      EnqueueSession(admission.sid, c);
      perStudent := perStudent[student := QueueOf(perStudent, student) + [c]];
      return Ok;
    }

    /** `POST /api/student/open_tabs`. */
    method OpenTabs(role: Option<string>, body: Json, now: Clock) returns (status: Status)
      modifies this
      ensures Outcome(Snapshot(), status)
        == OpenTabsOutcome(old(Snapshot()), Reconciled(old(sessions), old(active), now), role, body, now)
    {
      if !IsStaff(role) { return Forbidden; }
      var req := RequestObject(body);
      if req.None? { return Failed; }
      var b := req.value;
      var student := StrippedField(b, "student");
      if student.None? { return Failed; }
      var urls := Get(b, "urls");
      var sid := SessionField(b);
      if student.value == "" || !Truthy(urls) { return Invalid; }
      ghost var expected := OpenTabsFor(old(Snapshot()), Reconciled(sessions, active, now), student.value, urls, sid, now);
      var stamp: Option<string> := None;
      if Truthy(sid) {
        var act := ReconcileActive(sessions, active, now);
        var lookup := ActiveLookup(sid, act);
        if lookup.Unhashable? { return Failed; }
        if lookup.NonMember? { return NotActive; }
        active := act;
        stamp := Some(lookup.sid);
      }
      EnqueueStudent(student.value, OpenTabsCommand(urls, stamp, EpochSeconds(now)));
      assert Outcome(Snapshot(), Ok) == expected;
      return Ok;
    }

    /** `POST /api/student/tabs_action`. */
    method TabsAction(role: Option<string>, body: Json, now: Clock) returns (status: Status)
      modifies this
      ensures Outcome(Snapshot(), status) == TabsActionOutcome(old(Snapshot()), role, body, now)
    {
      if !IsStaff(role) { return Forbidden; }
      var req := RequestObject(body);
      if req.None? { return Failed; }
      var b := req.value;
      var student := StrippedField(b, "student");
      var action := StrippedField(b, "action");
      if student.None? || action.None? { return Failed; }
      if student.value == "" || !IsTabsAction(action.value) { return Invalid; }
      EnqueueStudent(student.value, TabsCommand(action.value, EpochSeconds(now)));
      return Ok;
    }

    /** The loop of `api_commands` over the student's active sessions, draining each queue of its own commands. */
    method DrainLoop(sids: seq<string>) returns (out: seq<Command>)
      modifies this
      ensures bySession == DrainSessions(old(bySession), sids).queues
      ensures out == DrainSessions(old(bySession), sids).out
      ensures sessions == old(sessions) && active == old(active) && perStudent == old(perStudent)
    {
      var queues := bySession;
      out := [];
      var i := 0;
      while i < |sids|
        invariant 0 <= i <= |sids|
        invariant out == DrainSessions(bySession, sids[..i]).out
        invariant queues == DrainSessions(bySession, sids[..i]).queues
        invariant bySession == old(bySession) && sessions == old(sessions)
        invariant active == old(active) && perStudent == old(perStudent)
      {
        var sid := sids[i];
        var queue := QueueOf(queues, sid);
        if queue != [] {
          var toTake := Matching(queue, sid);
          out := out + toTake;
          queues := queues[sid := RemoveByValue(queue, toTake)];
        }
        DrainSnoc(bySession, sids[..i], sid);
        assert sids[..i + 1] == sids[..i] + [sid];
        i := i + 1;
      }
      assert sids[..i] == sids;
      bySession := queues;
    }

    /** `GET /api/commands/<student>`. */
    method Poll(student: string, now: Clock) returns (out: seq<Command>)
      modifies this
      ensures Polled(Snapshot(), out)
        == PollOutcome(old(Snapshot()), Reconciled(old(sessions), old(active), now), student)
    {
      var per := QueueOf(perStudent, student);
      if per != [] {
        perStudent := perStudent[student := []];
      }
      assert perStudent == TakeStudent(old(perStudent), student).queues;
      var sids := StudentActiveSessions(student, now);
      var drained := DrainLoop(sids);
      out := per + drained;
    }

    /** `POST /api/policy`. */
    method Policy(body: Json, cls: ClassPolicy, focusOverride: Option<Json>, scenes: SceneStore, now: Clock)
      returns (reply: Option<PolicyReply>)
      modifies this
      ensures reply == PolicyOutcome(old(Snapshot()), Reconciled(old(sessions), old(active), now), body, cls, focusOverride, scenes)
      ensures Snapshot() == if reply.Some? then reply.value.doc else old(Snapshot())
    {
      match RequestObject(body) {
        case None => return None;
        case Some(b) =>
          match StrippedField(b, "student") {
            case None => return None;
            case Some(student) =>
              var act := ReconcileActive(sessions, active, now);
              var r := PolicyFor(Snapshot(), act, student, cls, focusOverride, scenes);
              perStudent := r.doc.perStudent;
              reply := Some(r);
          }
      }
    }

    /** `GET /api/state/<student_id>`: the composed state, from a reconcile that is not saved. */
    method StateFor(student: string, now: Clock) returns (e: EffectiveState)
      ensures e == EffectiveStateFor(sessions, Reconciled(sessions, active, now), student)
    {
      var act := ReconcileActive(sessions, active, now);
      e := ComposeEffectiveState(sessions, act, student);
    }

    /** The loop of the start and end handlers over the sessions carrying `sid`. */
    method SetManualFlag(sid: string, flag: bool)
      modifies this
      ensures sessions == SetManual(old(sessions), sid, flag)
      ensures active == old(active) && bySession == old(bySession) && perStudent == old(perStudent)
    {
      var i := 0;
      while i < |sessions|
        invariant 0 <= i <= |sessions| == |old(sessions)|
        invariant forall j :: 0 <= j < i ==> sessions[j] == SetManual(old(sessions), sid, flag)[j]
        invariant forall j :: i <= j < |sessions| ==> sessions[j] == old(sessions)[j]
        invariant active == old(active) && bySession == old(bySession) && perStudent == old(perStudent)
      {
        if sessions[i].id == sid {
          sessions := sessions[i := sessions[i].(manual := flag)];
        }
        i := i + 1;
      }
    }

    /** `POST /api/sessions/<sid>/start`. */
    method Start(sid: string) returns (status: Status)
      modifies this
      ensures Outcome(Snapshot(), status) == StartOutcome(old(Snapshot()), sid)
    {
      var ids := Ids(sessions);
      if sid !in ids {
        assert !HasId(sessions, sid) by {
          forall i | 0 <= i < |sessions| ensures sessions[i].id != sid { assert ids[i] == sessions[i].id; }
        }
        return NotFound;
      }
      active := active + {sid};
      SetManualFlag(sid, true);
      return Ok;
    }

    /** `POST /api/sessions/<sid>/end`. */
    method End(sid: string)
      modifies this
      ensures Snapshot() == EndDoc(old(Snapshot()), sid)
    {
      active := active - {sid};
      SetManualFlag(sid, false);
    }

    /** `POST /api/sessions`: build the session and put it last, replacing any with its id. */
    method Upsert(draft: SessionDraft, suffix: string) returns (s: Session)
      modifies this
      ensures s == DraftSession(draft, suffix)
      ensures Snapshot() == old(Snapshot()).(sessions := Upserted(old(sessions), s))
    {
      s := DraftSession(draft, suffix);
      sessions := Upserted(sessions, s);
    }

    /** `PUT /api/sessions/<sid>`: patch the first session with the id, if any. */
    method Update(sid: string, patch: SessionPatch)
      modifies this
      ensures Snapshot() == old(Snapshot()).(sessions := Patched(old(sessions), sid, patch))
    {
      var i := 0;
      while i < |sessions| && sessions[i].id != sid
        invariant 0 <= i <= |sessions|
        invariant forall j :: 0 <= j < i ==> sessions[j].id != sid
      {
        i := i + 1;
      }
      PatchedFirst(sessions, sid, patch, i);
      if i < |sessions| {
        sessions := sessions[i := ApplyPatch(sessions[i], patch)];
      }
    }

    /** `DELETE /api/sessions/<sid>`. */
    method Delete(sid: string)
      modifies this
      ensures Snapshot() == DeleteDoc(old(Snapshot()), sid)
    {
      sessions := Without(sessions, sid);
      active := active - {sid};
    }
  }
}
