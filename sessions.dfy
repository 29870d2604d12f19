/**
 * Session definitions and the active-session reconciler
 * (app.py `_reconcile_active_sessions`, `_student_active_sessions`), with
 * the value-level effect of the session create/update/delete/start/end
 * handlers on the list of sessions.
 */
module Sessions {
  import opened Common
  import opened Schedule

  /** The `controls` record of a session. */
  datatype Controls = Controls(focusMode: bool, allowlist: seq<string>, examMode: bool, examUrl: string)

  /** The controls a session gets when it is created without any. */
  const DefaultControls := Controls(false, [], false, "")

  datatype Session = Session(
    id: string,
    name: string,
    teacher: string,
    students: seq<string>,
    controls: Controls,
    schedule: seq<Entry>,
    manual: bool)

  predicate UniqueIds(ss: seq<Session>) {
    forall i, j :: 0 <= i < j < |ss| ==> ss[i].id != ss[j].id
  }

  predicate HasId(ss: seq<Session>, x: string) {
    exists i :: 0 <= i < |ss| && ss[i].id == x
  }

  /**
   * `{s.get("id"): s for s in sessions}`: each id maps to the LAST session
   * that carries it.
   */
  function ById(ss: seq<Session>): (m: map<string, Session>)
    ensures forall x :: x in m ==> m[x].id == x
  {
    if ss == [] then map[] else ById(ss[..|ss| - 1])[ss[|ss| - 1].id := ss[|ss| - 1]]
  }

  lemma ByIdSnoc(ss: seq<Session>, s: Session)
    ensures ById(ss + [s]) == ById(ss)[s.id := s]
  {
    assert (ss + [s])[..|ss|] == ss;
  }

  /** An id is a key of the map exactly when some session carries it. */
  lemma {:induction false} ByIdKeys(ss: seq<Session>)
    ensures forall x :: x in ById(ss) <==> HasId(ss, x)
  {
    if ss != [] {
      var init := ss[..|ss| - 1];
      ByIdKeys(init);
      forall x ensures x in ById(ss) <==> HasId(ss, x) {
        if HasId(init, x) {
          var i :| 0 <= i < |init| && init[i].id == x;
          assert ss[i].id == x;
        }
        if HasId(ss, x) && x != ss[|ss| - 1].id {
          var i :| 0 <= i < |ss| && ss[i].id == x;
          assert init[i].id == x;
        }
      }
    }
  }

  /** With unique ids, every session is the one its id maps to. */
  lemma {:induction false} ByIdUnique(ss: seq<Session>, i: nat)
    requires UniqueIds(ss) && i < |ss|
    ensures ss[i].id in ById(ss) && ById(ss)[ss[i].id] == ss[i]
  {
    var init := ss[..|ss| - 1];
    if i < |ss| - 1 {
      ByIdUnique(init, i);
      assert ss[|ss| - 1].id != ss[i].id;
    }
  }

  /**
   * The schedule-or-manual rule for one defined session: it is active after
   * reconciling when its schedule matches now, or when it was already active
   * and its `manual` flag is set.
   */
  predicate Keeps(s: Session, wasActive: bool, now: Clock) {
    ScheduledActive(s.schedule, now) || (wasActive && s.manual)
  }

  /**
   * The active set `_reconcile_active_sessions` leaves behind: ids without a
   * session are untouched, and each defined id is in it exactly when its
   * session `Keeps`.
   */
  function Reconciled(ss: seq<Session>, active: set<string>, now: Clock): (r: set<string>)
    ensures forall x :: x in r ==> x in active || x in ById(ss)
  {
    var byId := ById(ss);
    (set x | x in active && x !in byId) + (set x | x in byId && Keeps(byId[x], x in active, now))
  }

  /** Every session whose schedule matches now is active after reconciling. */
  lemma ReconcileActivatesScheduled(ss: seq<Session>, active: set<string>, now: Clock, i: nat)
    requires UniqueIds(ss) && i < |ss|
    requires ScheduledActive(ss[i].schedule, now)
    ensures ss[i].id in Reconciled(ss, active, now)
  {
    ByIdUnique(ss, i);
  }

  /** A session whose schedule does not match and whose `manual` is false is removed. */
  lemma ReconcileRemovesUnscheduled(ss: seq<Session>, active: set<string>, now: Clock, i: nat)
    requires UniqueIds(ss) && i < |ss|
    requires !ScheduledActive(ss[i].schedule, now) && !ss[i].manual
    ensures ss[i].id !in Reconciled(ss, active, now)
  {
    ByIdUnique(ss, i);
  }

  /**
   * A manual session whose schedule does not match keeps its previous
   * membership: it stays if it was active and is NOT added if it was not.
   */
  lemma ReconcileManualKeepsMembership(ss: seq<Session>, active: set<string>, now: Clock, i: nat)
    requires UniqueIds(ss) && i < |ss|
    requires !ScheduledActive(ss[i].schedule, now) && ss[i].manual
    ensures ss[i].id in Reconciled(ss, active, now) <==> ss[i].id in active
  {
    ByIdUnique(ss, i);
  }

  /** Ids that no session carries are left as they were. */
  lemma ReconcileUndefinedUntouched(ss: seq<Session>, active: set<string>, now: Clock, x: string)
    requires !HasId(ss, x)
    ensures x in Reconciled(ss, active, now) <==> x in active
  {
    ByIdKeys(ss);
  }

  /** For a fixed clock, reconciling twice is reconciling once. */
  lemma ReconcileIdempotent(ss: seq<Session>, active: set<string>, now: Clock)
    ensures Reconciled(ss, Reconciled(ss, active, now), now) == Reconciled(ss, active, now)
  {
    var once := Reconciled(ss, active, now);
    var byId := ById(ss);
    forall x ensures x in Reconciled(ss, once, now) <==> x in once {
      if x in byId {
        assert Keeps(byId[x], x in once, now) <==> Keeps(byId[x], x in active, now);
      }
    }
  }

  /**
   * `_student_active_sessions` / the `relevant` list of
   * `_effective_state_for_student`: the sessions, in stored order, that are
   * active and list the student.
   */
  function Relevant(ss: seq<Session>, active: set<string>, student: string): (r: seq<Session>)
    ensures |r| <= |ss|
    ensures forall s :: s in r <==> s in ss && s.id in active && student in s.students
  {
    if ss == [] then []
    else
      var rest := Relevant(ss[1..], active, student);
      assert forall s :: s in ss <==> s == ss[0] || s in ss[1..] by { assert ss == [ss[0]] + ss[1..]; }
      if ss[0].id in active && student in ss[0].students then [ss[0]] + rest else rest
  }

  /**
   * `Relevant` is a filter that keeps order and multiplicity: it works
   * session by session, and the filtered parts of a split list join up.
   */
  lemma {:induction false} RelevantConcat(a: seq<Session>, b: seq<Session>, active: set<string>, student: string)
    ensures Relevant(a + b, active, student) == Relevant(a, active, student) + Relevant(b, active, student)
  {
    if a == [] {
      assert a + b == b;
    } else {
      var x, t := a[0], a[1..];
      assert a == [x] + t && a + b == [x] + (t + b);
      RelevantConcat(t, b, active, student);
      RelevantCons(x, t, active, student);
      RelevantCons(x, t + b, active, student);
      var head := if x.id in active && student in x.students then [x] else [];
      Assoc(head, Relevant(t, active, student), Relevant(b, active, student));
    }
  }

  lemma RelevantCons(x: Session, t: seq<Session>, active: set<string>, student: string)
    ensures Relevant([x] + t, active, student)
      == (if x.id in active && student in x.students then [x] else []) + Relevant(t, active, student)
  {
    assert ([x] + t)[0] == x && ([x] + t)[1..] == t;
  }

  /** On a single session `Relevant` keeps it exactly when it is active and lists the student. */
  lemma RelevantSingle(s: Session, active: set<string>, student: string)
    ensures Relevant([s], active, student) == (if s.id in active && student in s.students then [s] else [])
  {
    assert [s][1..] == [];
  }

  function Ids(ss: seq<Session>): (r: seq<string>)
    ensures |r| == |ss| && forall i :: 0 <= i < |ss| ==> r[i] == ss[i].id
  {
    seq(|ss|, i requires 0 <= i < |ss| => ss[i].id)
  }

  /** The session list without any session carrying id `x`, order kept. */
  function Without(ss: seq<Session>, x: string): (r: seq<Session>)
    ensures forall s :: s in r <==> s in ss && s.id != x
  {
    if ss == [] then []
    else
      var init := ss[..|ss| - 1];
      var last := ss[|ss| - 1];
      assert forall s :: s in ss <==> s in init || s == last by { assert ss == init + [last]; }
      Without(init, x) + (if last.id == x then [] else [last])
  }

  /** `Without` keeps order and multiplicity: the parts of a split list are filtered apart. */
  lemma {:induction false} WithoutConcat(a: seq<Session>, b: seq<Session>, x: string)
    ensures Without(a + b, x) == Without(a, x) + Without(b, x)
  {
    if b == [] {
      assert a + b == a;
    } else {
      var init := b[..|b| - 1];
      var last := b[|b| - 1];
      assert a + b == (a + init) + [last];
      assert b == init + [last];
      WithoutConcat(a, init, x);
      WithoutSnoc(a + init, last, x);
      WithoutSnoc(init, last, x);
    }
  }

  /** On a single session `Without` drops it exactly when it carries the id. */
  lemma WithoutSingle(s: Session, x: string)
    ensures Without([s], x) == (if s.id == x then [] else [s])
  {
    WithoutSnoc([], s, x);
    assert [] + [s] == [s];
  }

  lemma WithoutSnoc(ss: seq<Session>, last: Session, x: string)
    ensures Without(ss + [last], x) == Without(ss, x) + (if last.id == x then [] else [last])
  {
    assert (ss + [last])[..|ss|] == ss;
  }

  lemma UpdateThenRemove(m: map<string, Session>, k: string, v: Session, x: string)
    ensures k == x ==> m[k := v] - {x} == m - {x}
    ensures k != x ==> m[k := v] - {x} == (m - {x})[k := v]
  {
    if k == x {
      assert (m[k := v] - {x}).Keys == (m - {x}).Keys;
    } else {
      assert (m[k := v] - {x}).Keys == ((m - {x})[k := v]).Keys;
    }
  }

  lemma {:induction false} WithoutById(ss: seq<Session>, x: string)
    ensures ById(Without(ss, x)) == ById(ss) - {x}
  {
    if ss != [] {
      var init := ss[..|ss| - 1];
      var last := ss[|ss| - 1];
      WithoutById(init, x);
      UpdateThenRemove(ById(init), last.id, last, x);
      if last.id == x {
        assert Without(ss, x) == Without(init, x);
      } else {
        assert Without(ss, x) == Without(init, x) + [last];
        ByIdSnoc(Without(init, x), last);
      }
    }
  }

  /**
   * `POST /api/sessions`: the new session replaces every session with the
   * same id and goes last.
   */
  function Upserted(ss: seq<Session>, s: Session): (r: seq<Session>)
    ensures r != [] && r[|r| - 1] == s
    ensures forall t :: t in r ==> t == s || (t in ss && t.id != s.id)
  {
    Without(ss, s.id) + [s]
  }

  /** After an upsert the id names the new session, and no other id changes meaning. */
  lemma UpsertById(ss: seq<Session>, s: Session)
    ensures ById(Upserted(ss, s)) == ById(ss)[s.id := s]
  {
    WithoutById(ss, s.id);
    ByIdSnoc(Without(ss, s.id), s);
  }

  /** An upsert keeps session ids unique. */
  lemma UpsertKeepsUniqueIds(ss: seq<Session>, s: Session)
    requires UniqueIds(ss)
    ensures UniqueIds(Upserted(ss, s))
  {
    UniqueWithout(ss, s.id);
  }

  lemma {:induction false} UniqueWithout(ss: seq<Session>, x: string)
    requires UniqueIds(ss)
    ensures UniqueIds(Without(ss, x))
  {
    if ss != [] {
      var init := ss[..|ss| - 1];
      var last := ss[|ss| - 1];
      UniqueWithout(init, x);
      if last.id != x {
        forall s | s in Without(init, x) ensures s.id != last.id {
          var i :| 0 <= i < |init| && init[i] == s;
          assert ss[i] == s;
        }
      }
    }
  }

  /** Every session carrying id `x` gets `manual := flag`; nothing else changes. */
  function SetManual(ss: seq<Session>, x: string, flag: bool): (r: seq<Session>)
    ensures |r| == |ss|
    ensures forall i :: 0 <= i < |ss| ==> r[i].(manual := ss[i].manual) == ss[i]
    ensures forall i :: 0 <= i < |ss| && ss[i].id == x ==> r[i].manual == flag
    ensures forall i :: 0 <= i < |ss| && ss[i].id != x ==> r[i] == ss[i]
  {
    seq(|ss|, i requires 0 <= i < |ss| => if ss[i].id == x then ss[i].(manual := flag) else ss[i])
  }

  lemma UpdateTwice(m: map<string, Session>, k: string, a: Session, j: string, b: Session)
    ensures k == j ==> m[k := a][j := b] == m[j := b]
    ensures k != j ==> m[k := a][j := b] == m[j := b][k := a]
  {
    assert m[k := a][j := b].Keys == m[j := b][k := a].Keys;
  }

  /** `ById` of the flagged list: the entry for `x`, if any, has `manual := flag`. */
  function Flagged(m: map<string, Session>, x: string, flag: bool): (r: map<string, Session>)
    ensures r.Keys == m.Keys
    ensures forall y :: y in m && y != x ==> r[y] == m[y]
    ensures x in m ==> r[x] == m[x].(manual := flag)
  {
    if x in m then m[x := m[x].(manual := flag)] else m
  }

  /** Setting the flag on the list and on its id map agree. */
  lemma {:induction false} SetManualById(ss: seq<Session>, x: string, flag: bool)
    ensures ById(SetManual(ss, x, flag)) == Flagged(ById(ss), x, flag)
  {
    if ss != [] {
      var init := ss[..|ss| - 1];
      var last := ss[|ss| - 1];
      var rInit := SetManual(init, x, flag);
      SetManualById(init, x, flag);
      var rLast := if last.id == x then last.(manual := flag) else last;
      assert init + [last] == ss;
      SetManualSnoc(init, last, x, flag);
      ByIdSnoc(rInit, rLast);
      ByIdSnoc(init, last);
      ManualStep(ById(init), last, x, flag);
    }
  }

  /** Flagging a list with one more session at the end flags that session last. */
  lemma SetManualSnoc(init: seq<Session>, last: Session, x: string, flag: bool)
    ensures SetManual(init + [last], x, flag)
      == SetManual(init, x, flag) + [if last.id == x then last.(manual := flag) else last]
  {
  }

  /** One step of `SetManualById`: flagging before or after adding the last session agrees. */
  lemma ManualStep(m: map<string, Session>, last: Session, x: string, flag: bool)
    ensures
      var rLast := if last.id == x then last.(manual := flag) else last;
      Flagged(m, x, flag)[rLast.id := rLast] == Flagged(m[last.id := last], x, flag)
  {
    var rLast := if last.id == x then last.(manual := flag) else last;
    if last.id == x {
      if x in m {
        UpdateTwice(m, x, m[x].(manual := flag), x, rLast);
      }
      UpdateTwice(m, x, last, x, rLast);
    } else if x in m {
      UpdateTwice(m, x, m[x].(manual := flag), last.id, last);
    }
  }

  /**
   * After `start` (id added to the active set, `manual` set) the session
   * survives every later reconcile, whatever the clock says, until `end`.
   */
  lemma StartedSurvivesReconcile(ss: seq<Session>, active: set<string>, x: string, now: Clock)
    requires HasId(ss, x)
    ensures x in Reconciled(SetManual(ss, x, true), active + {x}, now)
  {
    ByIdKeys(ss);
    SetManualById(ss, x, true);
  }

  /**
   * After `end` (id removed, `manual` cleared) the session is active after
   * the next reconcile exactly when its schedule matches.
   */
  lemma EndedReturnsOnlyBySchedule(ss: seq<Session>, active: set<string>, x: string, now: Clock)
    requires x in ById(ss)
    ensures x in Reconciled(SetManual(ss, x, false), active - {x}, now) <==>
      ScheduledActive(ById(ss)[x].schedule, now)
  {
    SetManualById(ss, x, false);
  }

  /** The `manual` flag alone never brings an inactive session into the active set. */
  lemma ManualAloneNeverAdds(ss: seq<Session>, active: set<string>, now: Clock, x: string)
    requires x !in active
    ensures x in Reconciled(ss, active, now) <==> x in ById(ss) && ScheduledActive(ById(ss)[x].schedule, now)
  {
  }

  /** The fields a `PUT /api/sessions/<sid>` body may carry; absent ones are `None`. */
  datatype SessionPatch = SessionPatch(
    name: Option<string>,
    teacher: Option<string>,
    students: Option<seq<string>>,
    controls: Option<Controls>,
    schedule: Option<seq<Entry>>,
    manual: Option<bool>)

  /**
   * `for k in (...): if k in body: s[k] = body[k]`: each field the patch
   * carries is overwritten, every other field and the id are kept.
   */
  function ApplyPatch(s: Session, p: SessionPatch): (r: Session)
    ensures r.id == s.id
  {
    s.(name := if p.name.Some? then p.name.value else s.name,
       teacher := if p.teacher.Some? then p.teacher.value else s.teacher,
       students := if p.students.Some? then p.students.value else s.students,
       controls := if p.controls.Some? then p.controls.value else s.controls,
       schedule := if p.schedule.Some? then p.schedule.value else s.schedule,
       manual := if p.manual.Some? then p.manual.value else s.manual)
  }

  /** Each field the patch carries takes the patch's value; each field it lacks, and the id, stay. */
  lemma ApplyPatchFields(s: Session, p: SessionPatch)
    ensures ApplyPatch(s, p).id == s.id
    ensures p.name.Some? ==> ApplyPatch(s, p).name == p.name.value
    ensures p.name.None? ==> ApplyPatch(s, p).name == s.name
    ensures p.teacher.Some? ==> ApplyPatch(s, p).teacher == p.teacher.value
    ensures p.teacher.None? ==> ApplyPatch(s, p).teacher == s.teacher
    ensures p.students.Some? ==> ApplyPatch(s, p).students == p.students.value
    ensures p.students.None? ==> ApplyPatch(s, p).students == s.students
    ensures p.controls.Some? ==> ApplyPatch(s, p).controls == p.controls.value
    ensures p.controls.None? ==> ApplyPatch(s, p).controls == s.controls
    ensures p.schedule.Some? ==> ApplyPatch(s, p).schedule == p.schedule.value
    ensures p.schedule.None? ==> ApplyPatch(s, p).schedule == s.schedule
    ensures p.manual.Some? ==> ApplyPatch(s, p).manual == p.manual.value
    ensures p.manual.None? ==> ApplyPatch(s, p).manual == s.manual
    ensures p == SessionPatch(None, None, None, None, None, None) ==> ApplyPatch(s, p) == s
  {
  }

  /** The update handler patches the FIRST session carrying the id and stops. */
  function Patched(ss: seq<Session>, x: string, p: SessionPatch): (r: seq<Session>)
    ensures |r| == |ss|
    ensures forall i :: 0 <= i < |ss| ==> r[i].id == ss[i].id
  {
    if ss == [] then []
    else if ss[0].id == x then [ApplyPatch(ss[0], p)] + ss[1..]
    else [ss[0]] + Patched(ss[1..], x, p)
  }

  /**
   * Only the first session carrying the id is patched: when `i` is the
   * index of that session, the result differs from `ss` at `i` alone, and
   * when no session carries the id (`i == |ss|`) nothing changes.
   */
  lemma {:induction false} PatchedFirst(ss: seq<Session>, x: string, p: SessionPatch, i: nat)
    requires i <= |ss|
    requires forall j :: 0 <= j < i ==> ss[j].id != x
    requires i < |ss| ==> ss[i].id == x
    ensures i < |ss| ==> Patched(ss, x, p) == ss[i := ApplyPatch(ss[i], p)]
    ensures i == |ss| ==> Patched(ss, x, p) == ss
  {
    if ss == [] {
    } else if i == 0 {
      assert Patched(ss, x, p) == [ApplyPatch(ss[0], p)] + ss[1..];
      ConsUpdate(ss[0], ss[1..], ApplyPatch(ss[0], p));
      assert [ss[0]] + ss[1..] == ss;
    } else {
      var tail := ss[1..];
      assert Patched(ss, x, p) == [ss[0]] + Patched(tail, x, p);
      forall j | 0 <= j < i - 1 ensures tail[j].id != x {
        assert tail[j] == ss[j + 1];
      }
      PatchedFirst(tail, x, p, i - 1);
      if i < |ss| {
        ConsUpdateLater(ss[0], tail, i - 1, ApplyPatch(ss[i], p));
      } else {
        assert [ss[0]] + tail == ss;
      }
    }
  }

  lemma ConsUpdate<T>(a: T, t: seq<T>, v: T)
    ensures [v] + t == ([a] + t)[0 := v]
  {
  }

  lemma ConsUpdateLater<T>(a: T, t: seq<T>, k: nat, v: T)
    requires k < |t|
    ensures [a] + t[k := v] == ([a] + t)[k + 1 := v]
  {
  }
}
