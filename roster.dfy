/**
 * Roster scoping: the structural JSON filter (`_filter_json_by_roster`),
 * the student-id lookup in request bodies (`_extract_student_id_from_body`),
 * the inbound rule of `_session_scoping_before`, and two small helpers,
 * `_is_guest_identity` and the file-name sanitiser of `_scenes_file_for`.
 */
module Roster {
  import opened Common
  import opened Json
  import opened Text
  import opened Sessions

  /** The keys taken to name a student, in the order they are tried. */
  const StudentIdKeys: seq<string> := ["student", "email", "id", "user", "student_id"]

  // ---------------------------------------------------------------------
  // The structural filter
  // ---------------------------------------------------------------------

  /**
   * The identifier the filter sees in an object: the value of the first
   * key of `StudentIdKeys` that is present with a string value, the empty
   * string included. Keys holding non-strings are skipped.
   */
  function RosterIdFrom(m: map<string, Json>, keys: seq<string>): (r: Option<string>)
    ensures r.None? <==> forall i :: 0 <= i < |keys| ==> !HasStr(m, keys[i])
    ensures r.Some? ==> exists i :: FirstStrAt(m, keys, i) && m[keys[i]] == Str(r.value)
  {
    if keys == [] then None
    else if HasStr(m, keys[0]) then
      assert FirstStrAt(m, keys, 0);
      Some(m[keys[0]].s)
    else
      var r := RosterIdFrom(m, keys[1..]);
      assert forall i :: 1 <= i < |keys| ==> keys[i] == keys[1..][i - 1];
      assert r.Some? ==> exists i :: FirstStrAt(m, keys, i) && m[keys[i]] == Str(r.value) by {
        if r.Some? {
          var i :| FirstStrAt(m, keys[1..], i) && m[keys[1..][i]] == Str(r.value);
          assert FirstStrAt(m, keys, i + 1);
        }
      }
      r
  }

  /** `k` is present with a string value. */
  predicate HasStr(m: map<string, Json>, k: string) {
    k in m && m[k].Str?
  }

  /** `keys[i]` is the first key present with a string value. */
  predicate FirstStrAt(m: map<string, Json>, keys: seq<string>, i: int) {
    0 <= i < |keys| && HasStr(m, keys[i]) && forall j :: 0 <= j < i ==> !HasStr(m, keys[j])
  }

  function RosterId(m: map<string, Json>): Option<string> {
    RosterIdFrom(m, StudentIdKeys)
  }

  /**
   * A list element survives the filter unless it is an object carrying an
   * identifier that the roster does not hold; an empty roster holds none.
   */
  predicate Kept(x: Json, roster: set<string>) {
    !(x.Obj? && RosterId(x.fields).Some? && (roster == {} || RosterId(x.fields).value !in roster))
  }

  /**
   * `_filter_json_by_roster`: in every list, at any depth, the objects that
   * name a student outside the roster are dropped; everything else is kept
   * in place, and objects keep all their keys.
   */
  function Filter(j: Json, roster: set<string>): (r: Json)
    decreases j, 1
    ensures r.Arr? <==> j.Arr?
    ensures r.Obj? <==> j.Obj?
    ensures r.Obj? ==> r.fields.Keys == j.fields.Keys
    ensures !j.Arr? && !j.Obj? ==> r == j
  {
    match j
    case Arr(items) => Arr(FilterItems(items, roster))
    case Obj(m) => Obj(map k | k in m :: Filter(m[k], roster))
    case _ => j
  }

  /** The list branch of `_filter_json_by_roster`. */
  function FilterItems(items: seq<Json>, roster: set<string>): (r: seq<Json>)
    decreases items, 0
    ensures |r| <= |items|
  {
    if items == [] then []
    else if Kept(items[0], roster) then [Filter(items[0], roster)] + FilterItems(items[1..], roster)
    else FilterItems(items[1..], roster)
  }

  /** Filtering an object leaves the identifier the filter reads from it unchanged. */
  lemma FilterKeepsRosterId(m: map<string, Json>, roster: set<string>)
    ensures Filter(Obj(m), roster).Obj?
    ensures RosterId(Filter(Obj(m), roster).fields) == RosterId(m)
  {
    var f := Filter(Obj(m), roster).fields;
    assert forall k :: k in m ==> (f[k].Str? <==> m[k].Str?) && (m[k].Str? ==> f[k] == m[k]);
    RosterIdKeysAgree(m, f, StudentIdKeys);
  }

  lemma {:induction false} RosterIdKeysAgree(m: map<string, Json>, f: map<string, Json>, keys: seq<string>)
    requires m.Keys == f.Keys
    requires forall k :: k in m ==> (f[k].Str? <==> m[k].Str?) && (m[k].Str? ==> f[k] == m[k])
    ensures RosterIdFrom(f, keys) == RosterIdFrom(m, keys)
  {
    if keys != [] { RosterIdKeysAgree(m, f, keys[1..]); }
  }

  /** Kept and filtered: the two facts the result of the filter has at every depth. */
  predicate Clean(j: Json, roster: set<string>)
    decreases j
  {
    match j
    case Arr(items) => forall i :: 0 <= i < |items| ==> Kept(items[i], roster) && Clean(items[i], roster)
    case Obj(m) => forall k :: k in m ==> Clean(m[k], roster)
    case _ => true
  }

  /**
   * The filter's result holds no object naming a student outside the
   * roster in any list, at any depth; with an empty roster it holds no
   * identified object in any list at all.
   */
  lemma {:induction false} FilterIsClean(j: Json, roster: set<string>)
    decreases j, 1
    ensures Clean(Filter(j, roster), roster)
  {
    match j
    case Arr(items) => FilterItemsAreClean(items, roster);
    case Obj(m) =>
      forall k | k in m ensures Clean(Filter(j, roster).fields[k], roster) { FilterIsClean(m[k], roster); }
    case _ =>
  }

  lemma {:induction false} FilterItemsAreClean(items: seq<Json>, roster: set<string>)
    decreases items, 0
    ensures forall i :: 0 <= i < |FilterItems(items, roster)| ==>
      Kept(FilterItems(items, roster)[i], roster) && Clean(FilterItems(items, roster)[i], roster)
  {
    if items != [] {
      FilterItemsAreClean(items[1..], roster);
      if Kept(items[0], roster) {
        FilterIsClean(items[0], roster);
        if items[0].Obj? { FilterKeepsRosterId(items[0].fields, roster); }
        assert Kept(Filter(items[0], roster), roster);
      }
    }
  }

  /** A value with nothing to drop passes through the filter unchanged. */
  lemma {:induction false} FilterFixesClean(j: Json, roster: set<string>)
    requires Clean(j, roster)
    decreases j, 1
    ensures Filter(j, roster) == j
  {
    match j
    case Arr(items) => FilterItemsFixClean(items, roster);
    case Obj(m) =>
      forall k | k in m ensures Filter(m[k], roster) == m[k] { FilterFixesClean(m[k], roster); }
      assert (map k | k in m :: Filter(m[k], roster)) == m;
    case _ =>
  }

  lemma {:induction false} FilterItemsFixClean(items: seq<Json>, roster: set<string>)
    requires forall i :: 0 <= i < |items| ==> Kept(items[i], roster) && Clean(items[i], roster)
    decreases items, 0
    ensures FilterItems(items, roster) == items
  {
    if items != [] {
      FilterFixesClean(items[0], roster);
      FilterItemsFixClean(items[1..], roster);
      assert items == [items[0]] + items[1..];
    }
  }

  /** Filtering twice with the same roster is filtering once. */
  lemma FilterIdempotent(j: Json, roster: set<string>)
    ensures Filter(Filter(j, roster), roster) == Filter(j, roster)
  {
    FilterIsClean(j, roster);
    FilterFixesClean(Filter(j, roster), roster);
  }

  /**
   * A list element is dropped exactly when it is an object naming a
   * student outside the roster; the survivors keep their order.
   */
  lemma {:induction false} FilterItemsSplit(items: seq<Json>, roster: set<string>, k: nat)
    requires k <= |items|
    ensures FilterItems(items, roster) == FilterItems(items[..k], roster) + FilterItems(items[k..], roster)
  {
    if k > 0 {
      assert items[1..][..k - 1] == items[..k][1..];
      assert items[1..][k - 1..] == items[k..];
      FilterItemsSplit(items[1..], roster, k - 1);
    }
  }

  /** One object per student, under the key "student". */
  function Entry(student: string): Json {
    Obj(map["student" := Str(student)])
  }

  /**
   * With roster {s1, s2}, a list of entries for s1, s2 and s3 keeps the
   * entries for s1 and s2; with an empty roster it keeps none.
   */
  lemma RosterExample()
    ensures Filter(Arr([Entry("s1"), Entry("s2"), Entry("s3")]), {"s1", "s2"}) == Arr([Entry("s1"), Entry("s2")])
    ensures Filter(Arr([Entry("s1"), Entry("s2"), Entry("s3")]), {}) == Arr([])
  {
    RosterExampleKeeps();
    RosterExampleEmpty();
  }

  lemma RosterExampleKeeps()
    ensures FilterItems([Entry("s1"), Entry("s2"), Entry("s3")], {"s1", "s2"}) == [Entry("s1"), Entry("s2")]
  {
    var roster := {"s1", "s2"};
    var e1, e2, e3 := Entry("s1"), Entry("s2"), Entry("s3");
    EntryOnRoster("s1", roster);
    EntryOnRoster("s2", roster);
    assert "s3"[1] != "s1"[1] && "s3"[1] != "s2"[1];
    EntryOffRoster("s3", roster);
    ConsLiterals(e1, e2, e3);
    FilterCons(e3, [], roster);
    FilterCons(e2, [e3], roster);
    FilterCons(e1, [e2, e3], roster);
  }

  lemma RosterExampleEmpty()
    ensures FilterItems([Entry("s1"), Entry("s2"), Entry("s3")], {}) == []
  {
    var e1, e2, e3 := Entry("s1"), Entry("s2"), Entry("s3");
    EntryId("s1");
    EntryId("s2");
    EntryId("s3");
    ConsLiterals(e1, e2, e3);
    FilterCons(e3, [], {});
    FilterCons(e2, [e3], {});
    FilterCons(e1, [e2, e3], {});
  }

  lemma ConsLiterals<T>(a: T, b: T, c: T)
    ensures [c] + [] == [c] && [b] + [c] == [b, c] && [a] + [b, c] == [a, b, c]
  {
  }

  /** An entry names its student. */
  lemma EntryId(s: string)
    ensures RosterId(Entry(s).fields) == Some(s)
  {
    assert HasStr(Entry(s).fields, StudentIdKeys[0]);
  }

  /** An entry for a student off the roster is dropped. */
  lemma EntryOffRoster(s: string, roster: set<string>)
    requires s !in roster
    ensures !Kept(Entry(s), roster)
  {
    EntryId(s);
  }

  /** An entry for a student on the roster is kept and passes through unchanged. */
  lemma EntryOnRoster(s: string, roster: set<string>)
    requires s in roster
    ensures Kept(Entry(s), roster) && Filter(Entry(s), roster) == Entry(s)
  {
    EntryId(s);
    FilterFixesClean(Entry(s), roster);
  }

  /** One step of the list branch. */
  lemma FilterCons(x: Json, rest: seq<Json>, roster: set<string>)
    ensures FilterItems([x] + rest, roster) == (if Kept(x, roster) then [Filter(x, roster)] else []) + FilterItems(rest, roster)
  {
    assert ([x] + rest)[1..] == rest;
  }

  // ---------------------------------------------------------------------
  // The student id of a request body
  // ---------------------------------------------------------------------

  /** Non-empty, with no white space at either end: what `v.strip()` gives for a non-blank `v`. */
  predicate Stripped(s: string) {
    s != [] && !IsSpace(s[0]) && !IsSpace(s[|s| - 1])
  }

  /** The stripped value under `k` when it is a string that is not blank. */
  function IdAt(m: map<string, Json>, k: string): (r: Option<string>)
    ensures r.Some? <==> k in m && m[k].Str? && !AllSpace(m[k].s)
    ensures r.Some? ==> r.value == Strip(m[k].s) && Stripped(r.value)
  {
    if k in m && m[k].Str? && Strip(m[k].s) != [] then Some(Strip(m[k].s)) else None
  }

  /** The first present value of `xs`. */
  function FirstSome(xs: seq<Option<string>>): (r: Option<string>)
    ensures r.None? <==> forall i :: 0 <= i < |xs| ==> xs[i].None?
    ensures r.Some? ==> r in xs
  {
    if xs == [] then None
    else if xs[0].Some? then xs[0]
    else
      var r := FirstSome(xs[1..]);
      assert forall i :: 1 <= i < |xs| ==> xs[i] == xs[1..][i - 1];
      r
  }

  /** The first present value is the one at the first index holding a value. */
  lemma {:induction false} FirstSomeAt(xs: seq<Option<string>>, i: int)
    requires 0 <= i < |xs| && xs[i].Some?
    requires forall j :: 0 <= j < i ==> xs[j].None?
    ensures FirstSome(xs) == xs[i]
  {
    if i > 0 {
      var tail := xs[1..];
      assert tail[i - 1] == xs[i];
      forall j | 0 <= j < i - 1 ensures tail[j].None? {
        assert tail[j] == xs[j + 1];
      }
      FirstSomeAt(tail, i - 1);
    }
  }

  /** What each key of `keys` gives. */
  function IdsAt(m: map<string, Json>, keys: seq<string>): (xs: seq<Option<string>>)
    ensures |xs| == |keys| && forall i :: 0 <= i < |keys| ==> xs[i] == IdAt(m, keys[i])
  {
    seq(|keys|, i requires 0 <= i < |keys| => IdAt(m, keys[i]))
  }

  /** The id from the first key of `keys` whose value gives one. */
  function FirstIdFrom(m: map<string, Json>, keys: seq<string>): (r: Option<string>)
    ensures r.None? <==> forall i :: 0 <= i < |keys| ==> IdAt(m, keys[i]).None?
    ensures r.Some? ==> Stripped(r.value)
  {
    var xs := IdsAt(m, keys);
    var r := FirstSome(xs);
    assert r.Some? ==> Stripped(r.value) by {
      if r.Some? {
        var i :| 0 <= i < |xs| && xs[i] == r;
        assert IdAt(m, keys[i]) == r;
      }
    }
    r
  }

  /** Whichever key gives the first id, that id is the one found. */
  lemma FirstIdFromAt(m: map<string, Json>, keys: seq<string>, i: int)
    requires 0 <= i < |keys| && IdAt(m, keys[i]).Some?
    requires forall j :: 0 <= j < i ==> IdAt(m, keys[j]).None?
    ensures FirstIdFrom(m, keys) == IdAt(m, keys[i])
  {
    FirstSomeAt(IdsAt(m, keys), i);
  }

  /** The `for key in _STUDENT_ID_KEYS` loop, returning at the first non-blank string. */
  method FindId(m: map<string, Json>, keys: seq<string>) returns (r: Option<string>)
    ensures r == FirstIdFrom(m, keys)
  {
    var i := 0;
    while i < |keys|
      invariant 0 <= i <= |keys|
      invariant forall j :: 0 <= j < i ==> IdAt(m, keys[j]).None?
    {
      var id := IdAt(m, keys[i]);
      if id.Some? {
        FirstIdFromAt(m, keys, i);
        return id;
      }
      i := i + 1;
    }
    return None;
  }

  /**
   * `_extract_student_id_from_body`: the keys of `StudentIdKeys` at the top
   * level of an object body, then the same keys inside its "data" object;
   * the first non-blank string found, stripped.
   */
  function ExtractStudentId(body: Json): (r: Option<string>)
    ensures !body.Obj? ==> r.None?
    ensures r.Some? ==> Stripped(r.value)
    ensures body.Obj? && FirstIdFrom(body.fields, StudentIdKeys).Some? ==> r == FirstIdFrom(body.fields, StudentIdKeys)
    ensures r.Some? && body.Obj? && FirstIdFrom(body.fields, StudentIdKeys).None? ==>
      "data" in body.fields && body.fields["data"].Obj? && r == FirstIdFrom(body.fields["data"].fields, StudentIdKeys)
    ensures body.Obj? && FirstIdFrom(body.fields, StudentIdKeys).None? && "data" in body.fields && body.fields["data"].Obj? ==>
      r == FirstIdFrom(body.fields["data"].fields, StudentIdKeys)
  {
    if !body.Obj? then None
    else
      var top := FirstIdFrom(body.fields, StudentIdKeys);
      if top.Some? then top
      else if "data" in body.fields && body.fields["data"].Obj? then FirstIdFrom(body.fields["data"].fields, StudentIdKeys)
      else None
  }

  /** `_extract_student_id_from_body` as the handler runs it: the top-level loop, then the "data" loop. */
  method FindStudentId(body: Json) returns (r: Option<string>)
    ensures r == ExtractStudentId(body)
  {
    if !body.Obj? { return None; }
    r := FindId(body.fields, StudentIdKeys);
    if r.Some? { return; }
    if "data" in body.fields && body.fields["data"].Obj? {
      r := FindId(body.fields["data"].fields, StudentIdKeys);
    }
  }

  /**
   * The id is the value of the first key, in the order of `StudentIdKeys`,
   * holding a non-blank string; an id at the top level hides any under
   * "data".
   */
  lemma FirstNonBlankKeyWins(m: map<string, Json>, i: nat)
    requires i < |StudentIdKeys| && IdAt(m, StudentIdKeys[i]).Some?
    requires forall j :: 0 <= j < i ==> IdAt(m, StudentIdKeys[j]).None?
    ensures ExtractStudentId(Obj(m)) == IdAt(m, StudentIdKeys[i])
  {
    FirstIdFromAt(m, StudentIdKeys, i);
  }

  /** A blank string under a key is no id: the next key is tried. */
  lemma BlankIsNoId(m: map<string, Json>, k: string)
    requires k in m && m[k].Str? && AllSpace(m[k].s)
    ensures IdAt(m, k).None?
  {
  }

  // ---------------------------------------------------------------------
  // The inbound rule of `_session_scoping_before`
  // ---------------------------------------------------------------------

  /** The paths the hook names as session scoped. */
  const ScopedPrefixes: seq<string> :=
    ["/api/presence", "/api/commands", "/api/timeline", "/api/heartbeat", "/api/offtask", "/api/present"]

  predicate ScopedPath(path: string) {
    (exists i :: 0 <= i < |ScopedPrefixes| && ScopedPrefixes[i] <= path) || "/api/" <= path
  }

  /** Every named prefix lies under "/api/", so the list adds nothing to the "/api/" test. */
  lemma ScopedPathIsApi(path: string)
    ensures ScopedPath(path) <==> "/api/" <= path
  {
    if exists i :: 0 <= i < |ScopedPrefixes| && ScopedPrefixes[i] <= path {
      var i :| 0 <= i < |ScopedPrefixes| && ScopedPrefixes[i] <= path;
      assert "/api/" <= ScopedPrefixes[i];
      assert ScopedPrefixes[i][..5] == path[..5];
    }
  }

  /**
   * The session of the request: the `session` query parameter, or when
   * that is missing or empty the `X-Session-ID` header. The body is not
   * consulted.
   */
  function RequestSession(query: Option<string>, header: Option<string>): (r: string)
    ensures r != "" <==> (query.Some? && query.value != "") || (header.Some? && header.value != "")
    ensures query.Some? && query.value != "" ==> r == query.value
    ensures !(query.Some? && query.value != "") ==> r == (if header.Some? then header.value else "")
  {
    if query.Some? && query.value != "" then query.value
    else if header.Some? then header.value
    else ""
  }

  /** The students of the first session with that id; empty when there is none. */
  function RosterOf(ss: seq<Session>, sid: string): (r: set<string>)
    ensures (forall i :: 0 <= i < |ss| ==> ss[i].id != sid) ==> r == {}
    ensures forall i :: (0 <= i < |ss| && ss[i].id == sid && forall j :: 0 <= j < i ==> ss[j].id != sid) ==>
      r == set x | x in ss[i].students
  {
    if ss == [] then {}
    else if ss[0].id == sid then set x | x in ss[0].students
    else
      assert forall i :: 1 <= i < |ss| ==> ss[i] == ss[1..][i - 1];
      RosterOf(ss[1..], sid)
  }

  /** What the hook does with a request. */
  datatype Inbound =
    | Proceed             // the request reaches its handler as it came
    | Rewritten(body: Json) // the handler reads this body instead
    | Ignored             // answered `{"ok": true, "ignored": true, ...}` at once

  /** The "students" list is made only of scalars, so membership tests on it do not raise. */
  predicate Hashable(xs: seq<Json>) {
    forall i :: 0 <= i < |xs| ==> !xs[i].Arr? && !xs[i].Obj?
  }

  /** `[x for x in students if x in roster]`: the strings in the roster, order kept. */
  function KeepRostered(xs: seq<Json>, roster: set<string>): (r: seq<Json>)
    ensures |r| <= |xs|
    ensures forall x :: x in r <==> x in xs && x.Str? && x.s in roster
  {
    if xs == [] then []
    else
      assert forall x :: x in xs <==> x == xs[0] || x in xs[1..] by { assert xs == [xs[0]] + xs[1..]; }
      (if xs[0].Str? && xs[0].s in roster then [xs[0]] else []) + KeepRostered(xs[1..], roster)
  }

  /**
   * The rewritten "students" list keeps the order and the repeats of the
   * original: `KeepRostered` works element by element.
   */
  lemma {:induction false} KeepRosteredConcat(a: seq<Json>, b: seq<Json>, roster: set<string>)
    ensures KeepRostered(a + b, roster) == KeepRostered(a, roster) + KeepRostered(b, roster)
  {
    if a == [] {
      assert a + b == b;
    } else {
      assert (a + b)[0] == a[0] && (a + b)[1..] == a[1..] + b;
      KeepRosteredConcat(a[1..], b, roster);
      var h := if a[0].Str? && a[0].s in roster then [a[0]] else [];
      assert KeepRostered(a + b, roster) == h + KeepRostered(a[1..] + b, roster);
      assert h + (KeepRostered(a[1..], roster) + KeepRostered(b, roster))
        == (h + KeepRostered(a[1..], roster)) + KeepRostered(b, roster);
    }
  }

  /** A single student is kept exactly when it is a string on the roster. */
  lemma KeepRosteredSingle(x: Json, roster: set<string>)
    ensures KeepRostered([x], roster) == (if x.Str? && x.s in roster then [x] else [])
  {
    assert [x][1..] == [];
  }

  /**
   * The inbound rule of `_session_scoping_before` for a request with
   * session `sid` whose roster is `roster`. `body` is the parsed JSON body,
   * `None` when it does not parse; a body that is missing, unparseable or
   * falsy is treated as `{}`. A truthy body that is not an object, or a
   * "students" list holding a list or an object, makes the hook raise and
   * swallow the error, and the request proceeds untouched.
   */
  function ScopeInbound(sid: string, roster: set<string>, verb: string, path: string,
                        isJson: bool, body: Option<Json>): (r: Inbound)
    ensures sid == "" || verb !in {"POST", "PUT"} || !("/api/" <= path) || !isJson ==> r == Proceed
    ensures sid != "" && verb in {"POST", "PUT"} && "/api/" <= path && isJson ==>
      ((body.None? || !Truthy(body.value)) ==> r == Rewritten(Obj(map[])))
      && (body.Some? && Truthy(body.value) && !body.value.Obj? ==> r == Proceed)
      && (body.Some? && body.value.Obj? && UnhashableStudents(body.value.fields) ==> r == Proceed)
    ensures r.Ignored? ==> (roster != {} && body.Some? && body.value.Obj?
      && ExtractStudentId(body.value).Some? && ExtractStudentId(body.value).value !in roster)
    ensures r.Rewritten? ==> (r.body.Obj? && (ExtractStudentId(r.body).None? || roster == {}
      || ExtractStudentId(r.body).value in roster))
    ensures r.Rewritten? && "students" in r.body.fields && r.body.fields["students"].Arr? ==>
      forall x :: x in r.body.fields["students"].items ==> x.Str? && x.s in roster
  {
    ScopedPathIsApi(path);
    if !Gated(sid, verb, path, isJson) then Proceed
    else ScopeBody(BodyOrEmpty(body), roster)
  }

  /** `request.get_json(silent=True) or {}` */
  function BodyOrEmpty(body: Option<Json>): Json {
    if body.None? || !Truthy(body.value) then Obj(map[]) else body.value
  }

  /** The request is one the hook scopes: a session, POST or PUT, a scoped path, a JSON body. */
  predicate Gated(sid: string, verb: string, path: string, isJson: bool) {
    sid != "" && verb in {"POST", "PUT"} && ScopedPath(path) && isJson
  }

  /** The inbound rule on the body once the request passed the gates of the hook. */
  function ScopeBody(b: Json, roster: set<string>): (r: Inbound)
    ensures r.Ignored? ==> (roster != {} && b.Obj?
      && ExtractStudentId(b).Some? && ExtractStudentId(b).value !in roster)
    ensures r.Rewritten? ==> (r.body.Obj? && (ExtractStudentId(r.body).None? || roster == {}
      || ExtractStudentId(r.body).value in roster))
    ensures r.Rewritten? && "students" in r.body.fields && r.body.fields["students"].Arr? ==>
      forall x :: x in r.body.fields["students"].items ==> x.Str? && x.s in roster
  {
    if !b.Obj? || UnhashableStudents(b.fields) then Proceed
    else
      var m := b.fields;
      var m' := ScopedFields(m, roster);
      assert ExtractStudentId(Obj(m')) == ExtractStudentId(Obj(m)) by {
        StudentsKeyIrrelevant(m, m');
      }
      var id := ExtractStudentId(Obj(m'));
      if id.Some? && roster != {} && id.value !in roster then Ignored
      else Rewritten(Obj(m'))
  }

  /** A "students" list holding a list or an object: the membership test on it raises. */
  predicate UnhashableStudents(m: map<string, Json>) {
    "students" in m && m["students"].Arr? && !Hashable(m["students"].items)
  }

  /**
   * `body['students'] = [x for x in body['students'] if x in roster]` when
   * "students" holds a list: every other member is kept as it is.
   */
  function ScopedFields(m: map<string, Json>, roster: set<string>): (r: map<string, Json>)
    ensures r.Keys == m.Keys
    ensures forall k :: k in m && k != "students" ==> r[k] == m[k]
    ensures "students" in m ==>
      r["students"] == if m["students"].Arr? then Arr(KeepRostered(m["students"].items, roster)) else m["students"]
  {
    if "students" in m && m["students"].Arr? then m["students" := Arr(KeepRostered(m["students"].items, roster))] else m
  }

  /** Rewriting the "students" key does not change the id read from a body. */
  lemma StudentsKeyIrrelevant(m: map<string, Json>, m': map<string, Json>)
    requires forall k :: k != "students" ==> (k in m <==> k in m') && (k in m ==> m[k] == m'[k])
    ensures ExtractStudentId(Obj(m')) == ExtractStudentId(Obj(m))
  {
    assert forall i :: 0 <= i < |StudentIdKeys| ==> StudentIdKeys[i] != "students";
    assert forall i :: 0 <= i < |StudentIdKeys| ==> IdAt(m, StudentIdKeys[i]) == IdAt(m', StudentIdKeys[i]);
    assert IdsAt(m, StudentIdKeys) == IdsAt(m', StudentIdKeys);
    assert "data" != "students";
  }

  /**
   * The inbound rule for a POST or PUT with an object body whose
   * "students" list, if any, holds only scalars: the request is answered
   * "ignored" exactly when the body names a student, the roster is not
   * empty, and the student is not on it. Otherwise the handler reads the
   * body with every member kept but "students", whose list is cut down to
   * the rostered strings.
   */
  lemma InboundRule(sid: string, roster: set<string>, verb: string, path: string, fields: map<string, Json>)
    requires sid != "" && verb in {"POST", "PUT"} && "/api/" <= path
    requires "students" in fields && fields["students"].Arr? ==> Hashable(fields["students"].items)
    ensures var r := ScopeInbound(sid, roster, verb, path, true, Some(Obj(fields)));
      var id := ExtractStudentId(Obj(fields));
      (r.Ignored? <==> id.Some? && roster != {} && id.value !in roster)
      && (!r.Ignored? ==> r.Rewritten? && r.body.Obj? && r.body.fields.Keys == fields.Keys)
    ensures var r := ScopeInbound(sid, roster, verb, path, true, Some(Obj(fields)));
      r.Rewritten? ==> forall k :: k in fields && k != "students" ==> r.body.fields[k] == fields[k]
    ensures var r := ScopeInbound(sid, roster, verb, path, true, Some(Obj(fields)));
      r.Rewritten? && "students" in fields ==>
        r.body.fields["students"] ==
          (if fields["students"].Arr? then Arr(KeepRostered(fields["students"].items, roster)) else fields["students"])
  {
    ScopeObject(sid, roster, verb, path, fields);
  }

  /** The inbound rule on an object body, once the gates are passed, in one step. */
  lemma ScopeObject(sid: string, roster: set<string>, verb: string, path: string, fields: map<string, Json>)
    requires sid != "" && verb in {"POST", "PUT"} && "/api/" <= path
    requires !UnhashableStudents(fields)
    ensures var id := ExtractStudentId(Obj(fields));
      ScopeInbound(sid, roster, verb, path, true, Some(Obj(fields)))
        == if id.Some? && roster != {} && id.value !in roster then Ignored else Rewritten(Obj(ScopedFields(fields, roster)))
  {
    if fields == map[] {
      EmptyBodyScoped(sid, roster, verb, path);
    } else {
      ScopeNonEmpty(sid, roster, verb, path, fields);
    }
  }

  lemma ScopeNonEmpty(sid: string, roster: set<string>, verb: string, path: string, fields: map<string, Json>)
    requires sid != "" && verb in {"POST", "PUT"} && "/api/" <= path
    requires !UnhashableStudents(fields) && fields != map[]
    ensures var id := ExtractStudentId(Obj(fields));
      ScopeInbound(sid, roster, verb, path, true, Some(Obj(fields)))
        == if id.Some? && roster != {} && id.value !in roster then Ignored else Rewritten(Obj(ScopedFields(fields, roster)))
  {
    ScopedPathIsApi(path);
    ScopeGate(sid, roster, verb, path, fields);
    ScopeBodyObject(roster, fields);
  }

  /** A non-empty object body that passed the gates goes to `ScopeBody` as it is. */
  lemma ScopeGate(sid: string, roster: set<string>, verb: string, path: string, fields: map<string, Json>)
    requires Gated(sid, verb, path, true) && fields != map[]
    ensures ScopeInbound(sid, roster, verb, path, true, Some(Obj(fields))) == ScopeBody(Obj(fields), roster)
  {
    assert BodyOrEmpty(Some(Obj(fields))) == Obj(fields);
  }

  lemma ScopeBodyObject(roster: set<string>, fields: map<string, Json>)
    requires !UnhashableStudents(fields)
    ensures var id := ExtractStudentId(Obj(fields));
      ScopeBody(Obj(fields), roster)
        == if id.Some? && roster != {} && id.value !in roster then Ignored else Rewritten(Obj(ScopedFields(fields, roster)))
  {
    StudentsKeyIrrelevant(fields, ScopedFields(fields, roster));
  }

  /** An empty body names no student and has nothing to cut down: it passes as it is. */
  lemma EmptyBodyScoped(sid: string, roster: set<string>, verb: string, path: string)
    requires sid != "" && verb in {"POST", "PUT"} && "/api/" <= path
    ensures ExtractStudentId(Obj(map[])).None?
    ensures ScopedFields(map[], roster) == map[]
    ensures ScopeInbound(sid, roster, verb, path, true, Some(Obj(map[]))) == Rewritten(Obj(map[]))
  {
  }

  // ---------------------------------------------------------------------
  // Small helpers
  // ---------------------------------------------------------------------

  const GuestTokens: seq<string> := ["guest", "anon", "anonymous", "trial", "temp"]

  predicate HasGuestToken(s: string) {
    exists i :: 0 <= i < |GuestTokens| && Contains(s, GuestTokens[i])
  }

  /**
   * `_is_guest_identity`: a blank email, or an email or name that contains
   * one of the guest tokens once stripped and lower-cased. A missing email
   * or name is the empty string.
   */
  predicate IsGuestIdentity(email: string, name: string) {
    var e := AsciiLower(Strip(email));
    var n := AsciiLower(Strip(name));
    e == [] || HasGuestToken(e) || HasGuestToken(n)
  }

  /** "anonymous" adds nothing to the token list: "anon" occurs in it. */
  lemma AnonymousCoveredByAnon(s: string)
    requires Contains(s, "anonymous")
    ensures Contains(s, "anon")
  {
    var i :| OccursAt(s, "anonymous", i);
    assert s[i..i + 4] == s[i..i + 9][..4];
    assert OccursAt(s, "anon", i);
  }

  /** A blank email is a guest whatever the name. */
  lemma BlankEmailIsGuest(email: string, name: string)
    requires AllSpace(email)
    ensures IsGuestIdentity(email, name)
  {
  }

  /** Upper case does not hide a token: "Guest@x" is a guest. */
  lemma GuestCaseInsensitive()
    ensures IsGuestIdentity("Guest@x", "")
  {
    StrippedIsFixed("Guest@x");
    LowerGuest();
    GuestPrefix(AsciiLower("Guest@x"));
    GuestByEmail("Guest@x", "");
  }

  /** A string starting with "guest" holds a guest token. */
  lemma GuestPrefix(e: string)
    requires |e| >= 5 && e[0..5] == "guest"
    ensures HasGuestToken(e)
  {
    assert OccursAt(e, GuestTokens[0], 0);
  }

  /** A token in the lower-cased, stripped name makes a guest, whatever the email. */
  lemma GuestByName(email: string, name: string)
    requires HasGuestToken(AsciiLower(Strip(name)))
    ensures IsGuestIdentity(email, name)
  {
  }

  /** A token in the lower-cased, stripped email makes a guest, whatever the name. */
  lemma GuestByEmail(email: string, name: string)
    requires HasGuestToken(AsciiLower(Strip(email)))
    ensures IsGuestIdentity(email, name)
  {
  }

  lemma LowerGuest()
    ensures |AsciiLower("Guest@x")| == 7 && AsciiLower("Guest@x")[0..5] == "guest"
  {
    var r := AsciiLower("Guest@x");
    assert r[0] == 'g' && r[1] == 'u' && r[2] == 'e' && r[3] == 's' && r[4] == 't';
  }

  /** No two adjacent characters of `s` are the first two of `t`, so `t` does not occur in `s`. */
  lemma NotContained(s: string, t: string)
    requires |t| >= 2
    requires forall k :: 0 <= k < |s| - 1 ==> !(s[k] == t[0] && s[k + 1] == t[1])
    ensures !Contains(s, t)
  {
    forall i | 0 <= i <= |s| - |t| ensures !OccursAt(s, t, i) {
      assert s[i..i + |t|][0] == s[i] && s[i..i + |t|][1] == s[i + 1];
    }
  }

  lemma NoGuestTokenIn(s: string)
    requires s == "ada@x.io" || s == "ada"
    ensures !HasGuestToken(s)
  {
    forall i | 0 <= i < |GuestTokens| ensures !Contains(s, GuestTokens[i]) {
      NotContained(s, GuestTokens[i]);
    }
  }

  /** Lower-casing leaves a string without upper-case letters as it is. */
  lemma LowerFixed(s: string)
    requires forall k :: 0 <= k < |s| ==> !('A' <= s[k] <= 'Z')
    ensures AsciiLower(s) == s
  {
  }

  lemma LowerAda()
    ensures AsciiLower("Ada") == "ada"
  {
    var r := AsciiLower("Ada");
    assert r[0] == 'a' && r[1] == 'd' && r[2] == 'a';
  }

  /** A plain address with a plain name is not a guest. */
  lemma OrdinaryIdentityNotGuest(email: string, name: string)
    requires email == "ada@x.io" && name == "Ada"
    ensures !IsGuestIdentity(email, name)
  {
    OrdinaryEmail();
    OrdinaryName();
    NotGuestByTokens(email, name);
  }

  lemma OrdinaryEmail()
    ensures AsciiLower(Strip("ada@x.io")) == "ada@x.io" && !HasGuestToken("ada@x.io")
  {
    StrippedIsFixed("ada@x.io");
    LowerFixed("ada@x.io");
    NoGuestTokenIn("ada@x.io");
  }

  lemma OrdinaryName()
    ensures AsciiLower(Strip("Ada")) == "ada" && !HasGuestToken("ada")
  {
    StrippedIsFixed("Ada");
    LowerAda();
    NoGuestTokenIn("ada");
  }

  /** A non-blank email, and an email and a name without tokens, make no guest. */
  lemma NotGuestByTokens(email: string, name: string)
    requires AsciiLower(Strip(email)) != []
    requires !HasGuestToken(AsciiLower(Strip(email))) && !HasGuestToken(AsciiLower(Strip(name)))
    ensures !IsGuestIdentity(email, name)
  {
  }

  /** The characters `_scenes_file_for` keeps in a session id. */
  predicate SafeChar(c: char) {
    ('a' <= c <= 'z') || ('A' <= c <= 'Z') || ('0' <= c <= '9') || c == '_' || c == '-'
  }

  /** `re.sub(r"[^a-zA-Z0-9_-]+", "", sid)`: every other character is deleted. */
  function Sanitize(s: string): (r: string)
    ensures |r| <= |s|
    ensures forall k :: 0 <= k < |r| ==> SafeChar(r[k])
    ensures (forall k :: 0 <= k < |s| ==> SafeChar(s[k])) ==> r == s
    ensures (forall k :: 0 <= k < |s| ==> !SafeChar(s[k])) ==> r == []
  {
    if s == [] then []
    else
      var rest := Sanitize(s[1..]);
      if SafeChar(s[0]) then [s[0]] + rest else rest
  }

  /** Sanitising works character by character: it distributes over concatenation. */
  lemma {:induction false} SanitizeConcat(a: string, b: string)
    ensures Sanitize(a + b) == Sanitize(a) + Sanitize(b)
  {
    if a == [] {
      assert a + b == b;
    } else {
      assert (a + b)[1..] == a[1..] + b;
      SanitizeConcat(a[1..], b);
    }
  }

  /** Where a session's scenes live. */
  datatype ScenesFile = GlobalScenes | SessionScenes(name: string)

  /** `_scenes_file_for`: no session (or an empty id) means the global file. */
  function ScenesFileFor(sid: Option<string>): (r: ScenesFile)
    ensures r.GlobalScenes? <==> sid.None? || sid.value == ""
    ensures r.SessionScenes? ==> r.name == "scene." + Sanitize(sid.value) + ".json"
  {
    if sid.None? || sid.value == "" then GlobalScenes
    else SessionScenes("scene." + Sanitize(sid.value) + ".json")
  }

  /** The per-session file name holds no '/', so it names a file directly under the root directory. */
  lemma ScenesFileHasNoSlash(sid: string)
    requires sid != ""
    ensures '/' !in ScenesFileFor(Some(sid)).name
  {
    var name := ScenesFileFor(Some(sid)).name;
    var safe := Sanitize(sid);
    assert name == "scene." + safe + ".json";
    forall k | 0 <= k < |name| ensures name[k] != '/' {
      if 6 <= k < 6 + |safe| { assert name[k] == safe[k - 6]; }
    }
  }

  /**
   * Ids that differ only in unsafe characters share a scenes file:
   * "a/b" and "ab" both read and write scene.ab.json, and an id of
   * unsafe characters only gets scene..json.
   */
  lemma ScenesFileCollision()
    ensures ScenesFileFor(Some("a/b")) == ScenesFileFor(Some("ab"))
    ensures ScenesFileFor(Some("!!")) == SessionScenes("scene..json")
  {
    SanitizeSlash();
    assert !SafeChar("!!"[0]) && !SafeChar("!!"[1]);
  }

  lemma SanitizeSlash()
    ensures Sanitize("a/b") == "ab"
  {
    assert "a/b" == "a" + ("/" + "b");
    SanitizeConcat("a", "/" + "b");
    SanitizeConcat("/", "b");
    assert SafeChar("a"[0]) && !SafeChar("/"[0]) && SafeChar("b"[0]);
    assert Sanitize("a") + Sanitize("b") == "ab";
  }
}
