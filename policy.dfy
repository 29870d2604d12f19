/**
 * The effective-policy composer (app.py `_effective_state_for_student`) and
 * the scene overlay of `api_policy`.
 */
module Policy {
  import opened Common
  import opened Text
  import opened Sessions

  /** What `_effective_state_for_student` returns. */
  datatype EffectiveState = EffectiveState(
    focusMode: bool,
    allowlist: seq<string>,
    examMode: bool,
    examUrl: string,
    sessionIds: seq<string>)

  /** Session `i` is in exam mode and names an exam URL. */
  predicate HasExamUrl(rel: seq<Session>, i: int)
    requires 0 <= i < |rel|
  {
    rel[i].controls.examMode && rel[i].controls.examUrl != ""
  }

  /** Session `i` is the first of `rel` in exam mode with an exam URL. */
  predicate FirstExamUrlAt(rel: seq<Session>, i: int) {
    0 <= i < |rel| && HasExamUrl(rel, i) && forall j :: 0 <= j < i ==> !HasExamUrl(rel, j)
  }

  /**
   * The body of the merge loop, from state `acc`, over the sessions `rel`
   * in order: OR in the focus and exam flags, take the first exam URL of a
   * session in exam mode, and add the allowlist entries to the sorted
   * duplicate-free allowlist. What each field ends up as is stated by the
   * lemmas below.
   */
  function MergeFrom(acc: EffectiveState, rel: seq<Session>): (r: EffectiveState)
    requires StrictlySorted(acc.allowlist)
    decreases |rel|
    ensures StrictlySorted(r.allowlist)
    ensures r.sessionIds == acc.sessionIds
  {
    if rel == [] then acc
    else
      var c := rel[0].controls;
      MergeFrom(acc.(
        focusMode := acc.focusMode || c.focusMode,
        examMode := acc.examMode || c.examMode,
        examUrl := if c.examMode && acc.examUrl == "" && c.examUrl != "" then c.examUrl else acc.examUrl,
        allowlist := InsertAll(c.allowlist, acc.allowlist)), rel[1..])
  }

  predicate AnyFocus(rel: seq<Session>) {
    exists i :: 0 <= i < |rel| && rel[i].controls.focusMode
  }

  predicate AnyExam(rel: seq<Session>) {
    exists i :: 0 <= i < |rel| && rel[i].controls.examMode
  }

  /** Some session of `rel` lists `u` in its allowlist. */
  predicate AllowedBy(rel: seq<Session>, u: string) {
    exists i :: 0 <= i < |rel| && u in rel[i].controls.allowlist
  }

  /** Focus is on exactly when it was on already or some merged session asks for it. */
  lemma {:induction false} MergeFocus(acc: EffectiveState, rel: seq<Session>)
    requires StrictlySorted(acc.allowlist)
    decreases |rel|
    ensures MergeFrom(acc, rel).focusMode <==> acc.focusMode || AnyFocus(rel)
  {
    if rel != [] {
      var c := rel[0].controls;
      var next := acc.(
        focusMode := acc.focusMode || c.focusMode,
        examMode := acc.examMode || c.examMode,
        examUrl := if c.examMode && acc.examUrl == "" && c.examUrl != "" then c.examUrl else acc.examUrl,
        allowlist := InsertAll(c.allowlist, acc.allowlist));
      MergeFocus(next, rel[1..]);
      if AnyFocus(rel[1..]) {
        var i :| 0 <= i < |rel[1..]| && rel[1..][i].controls.focusMode;
        assert rel[i + 1].controls.focusMode;
      }
      if AnyFocus(rel) {
        var i :| 0 <= i < |rel| && rel[i].controls.focusMode;
        if i > 0 { assert rel[1..][i - 1].controls.focusMode; }
      }
    }
  }

  /** Exam mode is on exactly when it was on already or some merged session asks for it. */
  lemma {:induction false} MergeExam(acc: EffectiveState, rel: seq<Session>)
    requires StrictlySorted(acc.allowlist)
    decreases |rel|
    ensures MergeFrom(acc, rel).examMode <==> acc.examMode || AnyExam(rel)
  {
    if rel != [] {
      var c := rel[0].controls;
      var next := acc.(
        focusMode := acc.focusMode || c.focusMode,
        examMode := acc.examMode || c.examMode,
        examUrl := if c.examMode && acc.examUrl == "" && c.examUrl != "" then c.examUrl else acc.examUrl,
        allowlist := InsertAll(c.allowlist, acc.allowlist));
      MergeExam(next, rel[1..]);
      if AnyExam(rel[1..]) {
        var i :| 0 <= i < |rel[1..]| && rel[1..][i].controls.examMode;
        assert rel[i + 1].controls.examMode;
      }
      if AnyExam(rel) {
        var i :| 0 <= i < |rel| && rel[i].controls.examMode;
        if i > 0 { assert rel[1..][i - 1].controls.examMode; }
      }
    }
  }

  /**
   * The exam URL, once set, is kept; from an empty one it becomes the URL
   * of the first session in exam mode that names one, and stays empty only
   * when there is no such session.
   */
  lemma {:induction false} MergeExamUrl(acc: EffectiveState, rel: seq<Session>)
    requires StrictlySorted(acc.allowlist)
    decreases |rel|
    ensures acc.examUrl != "" ==> MergeFrom(acc, rel).examUrl == acc.examUrl
    ensures acc.examUrl == "" && MergeFrom(acc, rel).examUrl == "" ==>
      forall i :: 0 <= i < |rel| ==> !HasExamUrl(rel, i)
    ensures acc.examUrl == "" && MergeFrom(acc, rel).examUrl != "" ==>
      exists i :: FirstExamUrlAt(rel, i) && MergeFrom(acc, rel).examUrl == rel[i].controls.examUrl
  {
    if rel != [] {
      var c := rel[0].controls;
      var next := acc.(
        focusMode := acc.focusMode || c.focusMode,
        examMode := acc.examMode || c.examMode,
        examUrl := if c.examMode && acc.examUrl == "" && c.examUrl != "" then c.examUrl else acc.examUrl,
        allowlist := InsertAll(c.allowlist, acc.allowlist));
      MergeExamUrl(next, rel[1..]);
      var r := MergeFrom(acc, rel);
      assert r == MergeFrom(next, rel[1..]);
      assert forall i :: 1 <= i < |rel| ==> (HasExamUrl(rel, i) <==> HasExamUrl(rel[1..], i - 1));
      if acc.examUrl == "" && r.examUrl != "" {
        if HasExamUrl(rel, 0) {
          assert FirstExamUrlAt(rel, 0);
        } else {
          var i :| FirstExamUrlAt(rel[1..], i) && r.examUrl == rel[1..][i].controls.examUrl;
          assert FirstExamUrlAt(rel, i + 1);
        }
      }
    }
  }

  /** The allowlist gains exactly the entries of the merged sessions. */
  lemma {:induction false} MergeAllowlist(acc: EffectiveState, rel: seq<Session>)
    requires StrictlySorted(acc.allowlist)
    decreases |rel|
    ensures forall u :: u in MergeFrom(acc, rel).allowlist <==> u in acc.allowlist || AllowedBy(rel, u)
  {
    if rel != [] {
      var c := rel[0].controls;
      var next := acc.(
        focusMode := acc.focusMode || c.focusMode,
        examMode := acc.examMode || c.examMode,
        examUrl := if c.examMode && acc.examUrl == "" && c.examUrl != "" then c.examUrl else acc.examUrl,
        allowlist := InsertAll(c.allowlist, acc.allowlist));
      MergeAllowlist(next, rel[1..]);
      forall u ensures u in MergeFrom(acc, rel).allowlist <==> u in acc.allowlist || AllowedBy(rel, u) {
        if AllowedBy(rel[1..], u) {
          var i :| 0 <= i < |rel[1..]| && u in rel[1..][i].controls.allowlist;
          assert u in rel[i + 1].controls.allowlist;
        }
        if AllowedBy(rel, u) {
          var i :| 0 <= i < |rel| && u in rel[i].controls.allowlist;
          if i > 0 { assert u in rel[1..][i - 1].controls.allowlist; }
        }
      }
    }
  }

  /**
   * `_effective_state_for_student` on an already reconciled active set:
   * the merge of the active sessions that list the student, in stored order.
   */
  function EffectiveStateFor(ss: seq<Session>, active: set<string>, student: string): (e: EffectiveState)
    ensures e.sessionIds == Ids(Relevant(ss, active, student))
    ensures e.focusMode <==> AnyFocus(Relevant(ss, active, student))
    ensures e.examMode <==> AnyExam(Relevant(ss, active, student))
    ensures e.examUrl == "" <==>
      forall i :: 0 <= i < |Relevant(ss, active, student)| ==> !HasExamUrl(Relevant(ss, active, student), i)
    ensures e.examUrl != "" ==> exists i :: (FirstExamUrlAt(Relevant(ss, active, student), i)
      && e.examUrl == Relevant(ss, active, student)[i].controls.examUrl)
    ensures StrictlySorted(e.allowlist)
    ensures forall u :: u in e.allowlist <==> AllowedBy(Relevant(ss, active, student), u)
  {
    var rel := Relevant(ss, active, student);
    var acc := EffectiveState(false, [], false, "", Ids(rel));
    MergeFocus(acc, rel);
    MergeExam(acc, rel);
    MergeExamUrl(acc, rel);
    MergeAllowlist(acc, rel);
    var e := MergeFrom(acc, rel);
    assert e.examUrl != "" ==> exists i :: 0 <= i < |rel| && HasExamUrl(rel, i) by {
      if e.examUrl != "" { var i :| FirstExamUrlAt(rel, i) && e.examUrl == rel[i].controls.examUrl; }
    }
    e
  }

  /**
   * Whatever order the sessions and their allowlists come in, the
   * allowlist is Python's `sorted(set(...))` of their union: two merges
   * with the same entries give the same list.
   */
  lemma AllowlistIsSortedUnion(ss1: seq<Session>, a1: set<string>, st1: string,
                               ss2: seq<Session>, a2: set<string>, st2: string)
    requires forall u :: AllowedBy(Relevant(ss1, a1, st1), u) <==> AllowedBy(Relevant(ss2, a2, st2), u)
    ensures EffectiveStateFor(ss1, a1, st1).allowlist == EffectiveStateFor(ss2, a2, st2).allowlist
  {
    var l1 := EffectiveStateFor(ss1, a1, st1).allowlist;
    var l2 := EffectiveStateFor(ss2, a2, st2).allowlist;
    assert forall u :: u in l1 <==> u in l2;
    SortedListUnique(l1, l2);
  }

  /**
   * Two active sessions of the student, one with focus on and "a.com"
   * allowed, one with focus off and "b.com" allowed, compose to focus on
   * and the allowlist ["a.com", "b.com"].
   */
  lemma ComposeTwoSessions(a: Session, b: Session, active: set<string>, student: string)
    requires a.controls == Controls(true, ["a.com"], false, "")
    requires b.controls == Controls(false, ["b.com"], false, "")
    requires a.id in active && b.id in active && student in a.students && student in b.students
    ensures EffectiveStateFor([a, b], active, student).focusMode
    ensures !EffectiveStateFor([a, b], active, student).examMode
    ensures EffectiveStateFor([a, b], active, student).allowlist == ["a.com", "b.com"]
    ensures EffectiveStateFor([a, b], active, student).sessionIds == [a.id, b.id]
  {
    var rel := Relevant([a, b], active, student);
    assert rel == [a, b];
    assert rel[0].controls.focusMode;
    var e := EffectiveStateFor([a, b], active, student);
    assert forall u :: u in e.allowlist <==> u in ["a.com", "b.com"] by {
      forall u ensures u in e.allowlist <==> u in ["a.com", "b.com"] {
        if AllowedBy(rel, u) { var i :| 0 <= i < |rel| && u in rel[i].controls.allowlist; }
        if u == "a.com" { assert u in rel[0].controls.allowlist; }
        if u == "b.com" { assert u in rel[1].controls.allowlist; }
      }
    }
    assert LexLess("a.com", "b.com");
    SortedListUnique(e.allowlist, ["a.com", "b.com"]);
  }

  /** A scene of the per-session scenes file. */
  datatype Scene = Scene(id: string, kind: string, allow: seq<string>, block: seq<string>)

  /**
   * The scenes file: two buckets and the current scene's id. A `current`
   * that is missing, null or an empty object is `None`; ids are compared
   * as `str()` texts, so a missing id reads as "None".
   */
  datatype SceneStore = SceneStore(allowed: seq<Scene>, blocked: seq<Scene>, current: Option<string>)

  /** The first scene of `scenes` with the given id. */
  function FindScene(scenes: seq<Scene>, id: string): (r: Option<Scene>)
    ensures r.None? <==> forall i :: 0 <= i < |scenes| ==> scenes[i].id != id
    ensures r.Some? ==> exists i :: (0 <= i < |scenes| && scenes[i] == r.value && r.value.id == id
      && forall j :: 0 <= j < i ==> scenes[j].id != id)
  {
    if scenes == [] then None
    else if scenes[0].id == id then Some(scenes[0])
    else
      var r := FindScene(scenes[1..], id);
      assert forall i :: 1 <= i < |scenes| ==> scenes[i] == scenes[1..][i - 1];
      assert r.Some? ==> exists i :: (0 <= i < |scenes| && scenes[i] == r.value && r.value.id == id
        && forall j :: 0 <= j < i ==> scenes[j].id != id) by {
        if r.Some? {
          var i :| 0 <= i < |scenes[1..]| && scenes[1..][i] == r.value && r.value.id == id
            && forall j :: 0 <= j < i ==> scenes[1..][j].id != id;
          assert scenes[i + 1] == r.value;
        }
      }
      r
  }

  /**
   * The current scene: looked up by id in the allowed bucket first, then
   * in the blocked one.
   */
  function CurrentScene(store: SceneStore): (r: Option<Scene>)
    ensures r.None? <==> (store.current.None?
      || ((forall s :: s in store.allowed ==> s.id != store.current.value)
          && (forall s :: s in store.blocked ==> s.id != store.current.value)))
    ensures r.Some? ==> (r.value.id == store.current.value
      && (r.value in store.allowed
          || (r.value in store.blocked && forall s :: s in store.allowed ==> s.id != store.current.value)))
  {
    match store.current
    case None => None
    case Some(id) => if FindScene(store.allowed, id).Some? then FindScene(store.allowed, id) else FindScene(store.blocked, id)
  }

  /** The class-level part of the policy response. */
  datatype ClassPolicy = ClassPolicy(focusMode: bool, allowlist: seq<string>, teacherBlocks: seq<string>)

  /**
   * The scene overlay of `api_policy`: an `allowed`-type scene replaces the
   * allowlist and forces focus on; a `blocked`-type scene appends its block
   * patterns and changes nothing else; any other type, or no current scene,
   * leaves the policy alone. The type is the scene's own `type`, not the
   * bucket it was found in.
   */
  function MergeScene(base: ClassPolicy, store: SceneStore): (r: ClassPolicy)
    ensures CurrentScene(store).Some? && CurrentScene(store).value.kind == "allowed" ==>
      r == ClassPolicy(true, CurrentScene(store).value.allow, base.teacherBlocks)
    ensures CurrentScene(store).Some? && CurrentScene(store).value.kind == "blocked" ==>
      r == base.(teacherBlocks := base.teacherBlocks + CurrentScene(store).value.block)
    ensures (CurrentScene(store).None? || CurrentScene(store).value.kind !in {"allowed", "blocked"}) ==> r == base
    ensures r.focusMode == (base.focusMode || (CurrentScene(store).Some? && CurrentScene(store).value.kind == "allowed"))
    ensures base.teacherBlocks <= r.teacherBlocks
  {
    match CurrentScene(store)
    case None => base
    case Some(s) =>
      if s.kind == "allowed" then ClassPolicy(true, s.allow, base.teacherBlocks)
      else if s.kind == "blocked" then base.(teacherBlocks := base.teacherBlocks + s.block)
      else base
  }
}
