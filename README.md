# Session engine of the classroom monitor, in Dafny

This project models the session engine of the classroom-monitoring web
application (`app.py`). Teachers define **sessions**. A session has a
roster of students, a set of controls (focus mode, an allowlist, exam mode
and an exam URL), a schedule of weekly and one-off windows, and a `manual`
flag. The engine's main parts are:

- **Reconciliation.** It keeps the set of active sessions in line with the
  schedules and the manual starts and ends.
- **Command queues.** It queues teacher commands per session (at most 200
  kept) and per student (at most 50 kept where the handlers trim). Students
  drain these queues when they poll.
- **Effective state.** It composes a student's policy from the active
  sessions that list them.
- **Scene overlay.** It lays the current scene over the class policy.
- **Roster scoping.** It scopes request and response JSON to the session's
  roster.

The project is split into modules:

- `Schedule` (`schedule.dfy`): the weekly and one-off matchers and the OR
  over a schedule's entries.
- `Sessions` (`sessions.dfy`): the session record, the id map Python builds
  (`{s["id"]: s}`, where the last duplicate wins), reconciliation as a
  specification function, and what create, update, delete, start and end do
  to the session list.
- `Queues` (`queues.dfy`): commands, their stamps, the capped append, the
  removal-by-value drain of a poll, and the one-shot per-student queues.
- `Policy` (`policy.dfy`): the effective-state composer, and the scene
  lookup and overlay of `api_policy`.
- `Roster` (`roster.dfy`): the structural roster filter, the student-id
  lookup in request bodies, the inbound rule of the `before_request` hook,
  the guest heuristic, and the scenes-file name sanitiser.
- `Engine` (`engine.dfy`): the handlers.
  - Each handler is an outcome function over the saved document (`Doc`).
    The function gives the status and the document the handler saves.
  - The class `Store` holds the document's fields (`sessions`, `active`,
    `bySession`, `perStudent`). Its methods update these fields in place,
    as the handlers do. Each method is proved to leave exactly what its
    outcome function says.
  - The loops of the source are methods with loop invariants: the
    reconcile loop, the schedule OR, the drain loop, the manual-flag loop,
    the find-then-patch loop of update, the effective-state loop and the
    student-id key loop.
- `Json` and `Text` (`json.dfy`, `text.dfy`): a JSON datatype with Python
  truthiness, and `strip`, `lower`, substring search and the string order
  `sorted` uses.
- `Common` (`common.dfy`): the `Option` datatype.

The clock is a parameter. It is a `Clock` with the local weekday, the
local time of day in microseconds, and POSIX time in microseconds. The
random part of a generated session id is also a parameter (`suffix`).

Some behaviours of the code are easy to misread. The model follows the
code in each of them:

- The `manual` flag alone never makes a session active. Reconciliation
  only *keeps* an already active manual session whose schedule does not
  match (`Sessions.ManualAloneNeverAdds`).
- Deleting a session keeps its command queue. Right after the delete no
  poll takes anything from it (`Engine.DeletedQueueOrphaned`). The queue
  stays, so a session later created with the same id gets its old
  commands (`Engine.RecreatedRevivesQueue`).
- The scene overlay of `api_policy` applies to the class-level flags
  (class `period1` with the student's focus override). It does not apply
  to the sessions' effective state (`Engine.PolicyOutcome`).
- The inbound hook reads the session from the query string or the
  `X-Session-ID` header only, never from the body (`Roster.RequestSession`).
- `POST /api/commands/<student>` appends to the student's queue with no
  cap of 50, unlike the other senders. A student queue can therefore grow
  past 50 (`Engine.PushGrowsPastCap`, `Engine.PushOverrunsStudentCap`).
- A session queue is shared by every student of the session. The first
  poller takes each command and later pollers do not see it
  (`Queues.FirstPollerWins`).

## Model

| member | source | states |
|---|---|---|
| Schedule.FieldMicros | app.py:666-670 | An absent field gives the default instant; `h:m` gives h hours plus m minutes when 0 <= h < 24 and 0 <= m < 60 and none otherwise (`replace` raises); a malformed field gives none; every instant lies within the day on a whole minute |
| Schedule.ClockReading | app.py:667-670 | The instant of a valid `h:m` reads back as hour h and minute m, so distinct clock times give distinct instants |
| Schedule.WeeklyMatch | app.py:660-673 | A matching weekly entry has today among its days, no malformed field, and a time of day within the day |
| Schedule.OneOffMatch | app.py:675-687 | A matching one-off entry has both instants, the start no later than the end |
| Schedule.ScheduledActive | app.py:689-698 | An active schedule has an entry of a known type |
| Schedule.IsScheduledActive | app.py:689-698 | The loop over the entries answers exactly `ScheduledActive` |
| Schedule.ScheduledActiveIff | app.py:689-698 | A schedule is active iff one of its entries matches; an empty schedule never is |
| Schedule.UnknownEntriesIgnored | app.py:692-697 | An entry of any other type, inserted anywhere, does not change the answer |
| Schedule.WeeklyMatchIff | app.py:660-673 | For start `sh:sm` and end `eh:em`, a weekly entry matches iff the weekday is listed, both hours are below 24 and both minutes below 60, and sh hours sm minutes <= time of day <= eh hours em minutes |
| Schedule.WeeklyInvertedNeverMatches | app.py:668-671 | An end earlier than the start never matches (no wrap over midnight) |
| Schedule.WeeklyMalformedNeverMatches | app.py:666-673 | A malformed start or end makes the entry fail closed |
| Schedule.WeeklyDefaults | app.py:666-667 | With both fields absent the window is 00:00 to 23:59:00 on the listed days |
| Schedule.WeeklyBoundaries | app.py:668-671 | Both ends of the window are included and a minute after the end is outside |
| Schedule.OneOffBoundaries | app.py:675-687 | A one-off window matches at its start and at its end, not a microsecond before or after, and never when either instant is missing |
| Sessions.ById | app.py:631 | Each key of the id map maps to a session that carries that id |
| Sessions.ByIdKeys | app.py:631 | The keys of the id map are exactly the ids carried by the sessions |
| Sessions.ByIdUnique | app.py:631 | With unique ids, every session is the one its id maps to |
| Sessions.Reconciled | app.py:629-640 | Reconciling adds only ids that some session carries |
| Sessions.ReconcileActivatesScheduled | app.py:629-640 | A session whose schedule matches is active after reconciling |
| Sessions.ReconcileRemovesUnscheduled | app.py:636-638 | A non-matching session without `manual` is removed |
| Sessions.ReconcileManualKeepsMembership | app.py:636-638 | A non-matching manual session keeps its prior membership, in both directions |
| Sessions.ReconcileUndefinedUntouched | app.py:632-639 | An id that no session carries keeps its membership |
| Sessions.ReconcileIdempotent | app.py:629-640 | Reconciling twice at the same instant is reconciling once |
| Sessions.ManualAloneNeverAdds | app.py:633-638 | An inactive id becomes active iff a session carries it and its schedule matches; `manual` plays no part |
| Sessions.Relevant | app.py:646-649 | The kept sessions are exactly the listed ones that are active and name the student |
| Sessions.RelevantConcat | app.py:646-649 | The filter keeps stored order and repeats: filtering a split list is filtering its parts and joining them |
| Sessions.RelevantSingle | app.py:646-649 | A single session is kept iff it is active and lists the student |
| Sessions.Without | app.py:2018 | The remaining sessions are exactly those with another id |
| Sessions.WithoutConcat | app.py:2018 | The remaining sessions keep their order and repeats: filtering a split list is filtering its parts and joining them |
| Sessions.WithoutSingle | app.py:2018 | A single session is dropped iff it carries the id |
| Sessions.WithoutById | app.py:2018 | Removing the sessions with an id removes exactly that key from the id map |
| Sessions.UniqueWithout | app.py:2018 | Deleting keeps the ids unique |
| Sessions.Upserted | app.py:2005 | The new session comes last, and every other session is an old one with another id |
| Sessions.UpsertById | app.py:2005 | Create-or-replace sets exactly that id in the id map to the new session |
| Sessions.UpsertKeepsUniqueIds | app.py:2005 | Create-or-replace keeps the ids unique |
| Sessions.SetManual | app.py:2039-2040 | Every session keeps its place and all but its `manual` flag; each session with the id gets the flag, and sessions with other ids are unchanged |
| Sessions.SetManualById | app.py:2039-2040 | Setting the flag changes, in the id map, only the `manual` of that id |
| Sessions.StartedSurvivesReconcile | app.py:2036-2040 | A started session stays active through any later reconcile |
| Sessions.EndedReturnsOnlyBySchedule | app.py:2047-2049 | After end, the session is active again iff its schedule matches |
| Sessions.ApplyPatchFields | app.py:2025-2026 | Each field the patch carries takes the patch's value, each field it lacks and the id stay, and an empty patch changes nothing |
| Sessions.Patched | app.py:2023-2027 | Patching keeps the number of sessions and every id |
| Sessions.PatchedFirst | app.py:2023-2027 | Only the first session with the id is patched; with none, nothing changes |
| Text.Strip | app.py:754 | The result is empty iff the text is all whitespace, and has no whitespace at either end |
| Text.StripIsSlice | app.py:754 | The result is the slice of the text left once whitespace-only ends are cut off |
| Text.StripIdempotent | app.py:754 | Stripping twice is stripping once |
| Text.Contains | app.py:220-223 | `t in s` holds iff `t` occurs at some index of `s` |
| Text.AsciiLower | app.py:216-217 | Lower-casing keeps the length and maps each upper-case letter to lower case |
| Text.LexLessTransitive | app.py:715 | The string order of `sorted` is transitive |
| Text.LexLessTotal | app.py:715 | Two distinct strings are ordered one way or the other |
| Text.LexLessIrreflexive | app.py:715 | No string is below itself |
| Text.LexLessAsymmetric | app.py:715 | The order is asymmetric |
| Text.Insert | app.py:714-715 | Inserting into a sorted duplicate-free list keeps it so and adds exactly the element |
| Text.InsertAll | app.py:714-715 | Inserting many keeps the list sorted and adds exactly those elements |
| Text.SortedListUnique | app.py:715 | Two sorted duplicate-free lists with the same elements are equal |
| Queues.Stamp | app.py:749-751 | The stamped command carries the session id and the seconds, and every other member of the body |
| Queues.Enqueued | app.py:651-658 | The queue keeps at most cap elements, the new command is last, and the survivors are the newest of the old queue in order |
| Queues.Pushed | app.py:651-658 | Only the named queue changes; it is created when missing |
| Queues.EnqueuedKeepsBound | app.py:656-657 | A push keeps every queue within its cap |
| Queues.LastNAppend | app.py:761-762 | Trimming before an append and trimming after it keep the same commands |
| Queues.EnqueueAllKeepsMostRecent | app.py:656-657 | Pushing commands one by one keeps the last cap of all of them |
| Queues.Matching | app.py:791 | The taken commands are exactly those stamped for the session |
| Queues.MatchingConcat | app.py:791 | The taken commands keep their queue order and repeats: taking from a split queue is taking from its parts and joining them |
| Queues.NonMatching | app.py:794 | The rest are exactly those not stamped for it |
| Queues.NonMatchingConcat | app.py:794 | The rest keep their queue order and repeats, as with `MatchingConcat` |
| Queues.PartitionSingle | app.py:791-794 | A single command is taken iff it is stamped for the session, and kept otherwise |
| Queues.RemoveByValue | app.py:794 | A command is kept iff it is queued and not among those taken |
| Queues.RemoveTakenLeavesOthers | app.py:791-794 | Removing the taken commands by value leaves exactly the unstamped or mismatched ones, in order |
| Queues.PartitionConserves | app.py:791-794 | Taken and kept commands together are the old queue, as a multiset |
| Queues.NonMatchingHasNoMatching | app.py:791-794 | What remains holds nothing stamped for the session |
| Queues.DrainSessions | app.py:787-795 | The poll loop over the session ids; its properties are `DrainSnoc`, `DrainSessionsFacts` and the lemmas below |
| Queues.DrainSnoc | app.py:787-795 | The poll loop extended by one session is one more loop step |
| Queues.DrainKeepsBound | app.py:787-795 | A poll keeps every session queue within its cap |
| Queues.DrainTakesStamped | app.py:787-795 | A command stamped for a polled session and queued on it is delivered |
| Queues.DrainSessionsFacts | app.py:787-795 | A poll touches only the polled queues, returns only commands stamped for them, and leaves them none |
| Queues.DrainKeepsCleanQueues | app.py:787-795 | A queue with nothing stamped for it stays so, and no command stamped for it is returned |
| Queues.FirstPollerWins | app.py:787-795 | After a poll over sessions a, a poll over b returns only commands stamped for sessions in b but not in a |
| Queues.SecondDrainEmpty | app.py:787-795 | Polling the same sessions again returns nothing |
| Queues.DrainCleanIsEmpty | app.py:787-795 | Polling queues with nothing stamped for them returns nothing |
| Queues.TakeStudent | app.py:779-782 | The student's queue is returned whole and left empty; other queues are unchanged |
| Queues.PopStudent | app.py:1049-1053 | The student's queue is returned and its key removed; an empty name takes nothing |
| Policy.MergeFrom | app.py:708-714 | The fold keeps the allowlist sorted and duplicate-free and keeps the session ids |
| Policy.MergeFocus | app.py:710 | Focus is on iff it was or some session sets it |
| Policy.MergeExam | app.py:711 | Exam mode is on iff it was or some session sets it |
| Policy.MergeExamUrl | app.py:712-713 | The exam URL is the first non-empty one among sessions in exam mode, and a set URL is never replaced |
| Policy.MergeAllowlist | app.py:714 | The allowlist is the union of the sessions' allowlists |
| Policy.EffectiveStateFor | app.py:700-716 | Session ids in stored order; focus and exam as ORs; the first exam URL; the allowlist as a sorted duplicate-free union |
| Policy.AllowlistIsSortedUnion | app.py:715 | The allowlist depends only on the union, not on the order or duplicates |
| Policy.ComposeTwoSessions | app.py:700-716 | Two sessions compose to focus on, exam off, the allowlist ["a.com", "b.com"] and both ids |
| Policy.FindScene | app.py:1062-1067 | The first scene with the id, or none iff no scene has it |
| Policy.CurrentScene | app.py:1056-1070 | The current scene from the allowed bucket first, then the blocked one; none iff neither has it |
| Policy.MergeScene | app.py:1056-1080 | An allowed-type scene replaces the allowlist and forces focus on; a blocked-type scene appends its blocks; anything else changes nothing |
| Roster.RosterIdFrom | app.py:2145-2149 | The value of the first key present with a string value; none iff no key has one |
| Roster.Filter | app.py:2135-2161 | Lists stay lists, objects keep their keys, scalars pass through unchanged |
| Roster.FilterItems | app.py:2140-2156 | The filtered list is never longer |
| Roster.FilterKeepsRosterId | app.py:2157-2158 | Filtering an object keeps the identifier the filter reads from it |
| Roster.RosterIdKeysAgree | app.py:2145-2149 | Objects with the same string members give the same identifier |
| Roster.FilterIsClean | app.py:2135-2161 | The result holds, in any list at any depth, no object naming a student outside the roster; with an empty roster, no identified object |
| Roster.FilterItemsAreClean | app.py:2140-2156 | Every element of a filtered list is kept and clean |
| Roster.FilterFixesClean | app.py:2135-2161 | Filtering a clean value changes nothing |
| Roster.FilterItemsFixClean | app.py:2140-2156 | Filtering a list of kept clean elements changes nothing |
| Roster.FilterIdempotent | app.py:2135-2161 | Filtering twice is filtering once |
| Roster.FilterItemsSplit | app.py:2140-2156 | The list filter works element by element: it distributes over a split |
| Roster.RosterExample | app.py:2135-2161 | A roster of s1 and s2 drops the s3 entry; an empty roster drops all three |
| Roster.RosterExampleKeeps | app.py:2140-2156 | With roster {s1, s2} the list keeps exactly the s1 and s2 entries |
| Roster.RosterExampleEmpty | app.py:2151 | With an empty roster the list of identified entries becomes empty |
| Roster.IdAt | app.py:2124-2126 | An id iff the key holds a string that is not all whitespace; the id is that string stripped |
| Roster.FirstIdFrom | app.py:2123-2126 | None iff no key holds a non-blank string; a found id is stripped |
| Roster.FirstIdFromAt | app.py:2123-2126 | The first key holding a non-blank string gives the id |
| Roster.FindId | app.py:2123-2126 | The key loop returns exactly `FirstIdFrom` |
| Roster.ExtractStudentId | app.py:2120-2133 | Non-objects give none; an id at the top level wins; otherwise, when "data" is an object, its id (or none); otherwise none; a found id is stripped |
| Roster.FindStudentId | app.py:2120-2133 | The two key loops return exactly `ExtractStudentId` |
| Roster.FirstNonBlankKeyWins | app.py:2123-2126 | The first key in the order student, email, id, user, student_id that holds a non-blank string decides |
| Roster.BlankIsNoId | app.py:2125 | A blank string is not an identifier |
| Roster.ScopedPathIsApi | app.py:2109-2112 | The named prefixes add nothing to the "/api/" test: a path is scoped iff it starts with "/api/" |
| Roster.RequestSession | app.py:2166 | The query parameter when non-empty, else the header's value, else empty |
| Roster.RosterOf | app.py:2169-2177 | The students of the first session with the id; empty when there is none |
| Roster.KeepRostered | app.py:2185-2186 | The kept students are exactly the listed strings on the roster |
| Roster.KeepRosteredConcat | app.py:2185-2186 | The kept students keep their order and repeats: filtering a split list is filtering its parts and joining them |
| Roster.KeepRosteredSingle | app.py:2185-2186 | A single student is kept iff it is a string on the roster |
| Roster.ScopeInbound | app.py:2164-2197 | Other verbs, paths, non-JSON or no session proceed; a missing or falsy body passes as {}; a truthy non-object body or a "students" list holding a list or object proceeds untouched (the hook swallows the error) |
| Roster.ScopeBody | app.py:2184-2193 | An ignored body names an off-roster student; a rewritten body names none and lists only rostered students |
| Roster.ScopedFields | app.py:2185-2186 | Every member but "students" is kept; a "students" list is cut down to its rostered strings |
| Roster.StudentsKeyIrrelevant | app.py:2185-2187 | Rewriting "students" does not change the id read from the body |
| Roster.InboundRule | app.py:2180-2191 | For a POST or PUT with any object body whose students list, if any, holds only scalars: ignored iff the body names a student, the roster is non-empty and the student is off it; otherwise the body is rewritten with every member kept and "students" cut down to the rostered strings |
| Roster.ScopeObject | app.py:2180-2191 | Past the gates, an object body is ignored or rewritten by the roster test on its extracted id |
| Roster.EmptyBodyScoped | app.py:2184 | An empty body names no student and passes as {} |
| Roster.IsGuestIdentity | app.py:214-224 | The guest heuristic: a blank email, or a token in the stripped, lower-cased email or name; its properties are the lemmas below |
| Roster.AnonymousCoveredByAnon | app.py:212 | "anonymous" adds nothing to the token list |
| Roster.BlankEmailIsGuest | app.py:218-219 | A blank email is a guest whatever the name |
| Roster.GuestByEmail | app.py:220-221 | An email holding a token after strip and lower is a guest |
| Roster.GuestByName | app.py:222-223 | A name holding a token after strip and lower is a guest, whatever the email |
| Roster.GuestCaseInsensitive | app.py:216-221 | "Guest@x" is a guest: the test ignores case |
| Roster.NotGuestByTokens | app.py:218-224 | A non-blank email and a name with no token are not a guest |
| Roster.OrdinaryIdentityNotGuest | app.py:214-224 | "ada@x.io" named "Ada" is not a guest |
| Roster.Sanitize | app.py:264 | Only safe characters remain, a safe id is unchanged, and an id of unsafe characters only becomes empty |
| Roster.SanitizeConcat | app.py:264 | Sanitising works character by character |
| Roster.ScenesFileFor | app.py:257-265 | No session or an empty id means the global file; otherwise scene.<sanitised id>.json |
| Roster.ScenesFileHasNoSlash | app.py:264-265 | A per-session file name holds no '/' |
| Roster.ScenesFileCollision | app.py:264-265 | "a/b" and "ab" share one file, and "!!" gets scene..json |
| Engine.EpochSecondsTruncates | app.py:751 | The stamp is the clock's whole seconds, rounded toward zero |
| Engine.RequestObject | app.py:733 | A falsy body reads as {}; a truthy non-object makes the handler raise |
| Engine.StrippedField | app.py:754 | A falsy field reads as ""; a string is stripped; anything else raises |
| Engine.ActiveLookup | app.py:741 | A member iff a string in the active set; lists and objects raise |
| Engine.CheckCommand | app.py:744-749 | A command iff an object with a `type`, whose members it keeps; falsy values are invalid |
| Engine.CheckCommandRaises | app.py:744-749 | The handler raises (500) iff the value is a truthy number or boolean, a string holding "type", or a list holding the string "type"; it answers invalid (400) iff the value is falsy, an object without `type`, or a string or list without "type" |
| Engine.AdmitOrder | app.py:728-742 | Role, then session present, then session active, each refusal exactly when the earlier checks pass |
| Engine.CommandOutcome | app.py:722-766 | The status and saved document of `POST /api/command`; its properties are the lemmas below |
| Engine.CommandChecksInOrder | app.py:728-746 | A refused send changes nothing; the command is checked only after the session |
| Engine.CommandDelivered | app.py:748-764 | A successful send stamps the command, pushes it on the session queue (cap 200) and on a named student's queue (cap 50), and saves the active set |
| Engine.CommandAccepted | app.py:744-766 | An admitted, well-formed send with a readable student field succeeds |
| Engine.CommandNewestOnSession | app.py:755 | After a send, the stamped command is the newest in its session's queue |
| Engine.PushOutcome | app.py:800-823 | The status and saved document of `POST /api/commands/<student>`; its properties are the lemmas below |
| Engine.PushChecksInOrder | app.py:801-813 | A refused push changes nothing; `type` is checked only after the session |
| Engine.PushAppendsUncapped | app.py:815-820 | A successful push appends to the student's queue with no cap |
| Engine.PushGrowsPastCap | app.py:820 | A successful push onto a full student queue breaks the bound |
| Engine.PushNotifyAccepted | app.py:800-823 | A teacher's notify push for an active session is accepted |
| Engine.PushOverrunsStudentCap | app.py:820 | From a bounded document, one push leaves a student queue at 51 |
| Engine.OpenTabsOutcome | app.py:1789-1817 | The status and saved document of `POST /api/student/open_tabs`; its properties are the lemmas below |
| Engine.OpenTabsChecks | app.py:1791-1807 | A refusal changes nothing; forbidden iff not staff; the session is looked at only after student and urls |
| Engine.OpenTabsQueues | app.py:1809-1815 | Success pushes on the student's queue only (cap 50), stamped with the session iff one was given |
| Engine.TabsActionOutcome | app.py:1587-1604 | The status and saved document of the tabs action; its properties are the lemmas below |
| Engine.TabsActionRefusalUnchanged | app.py:1589-1596 | A refused tabs action changes nothing |
| Engine.TabsActionQueues | app.py:1593-1601 | Success means a named student and one of the two actions, with only that student's queue changed |
| Engine.PollOutcome | app.py:772-798 | The answer and saved document of the poll; its properties are the lemmas below |
| Engine.PollDelivers | app.py:776-798 | The student's queue comes first and is emptied; then only commands stamped for the student's active sessions; other queues are untouched |
| Engine.PollTakesStamped | app.py:787-795 | Every command stamped for one of the student's active sessions and queued on it is delivered |
| Engine.SecondPollEmpty | app.py:776-798 | A second poll at the same instant returns nothing |
| Engine.CommandKeepsBounded | app.py:755-762 | Sending keeps every queue within its cap |
| Engine.OpenTabsKeepsBounded | app.py:1809-1815 | Opening tabs keeps every queue within its cap |
| Engine.TabsActionKeepsBounded | app.py:1598-1601 | A tabs action keeps every queue within its cap |
| Engine.PollKeepsBounded | app.py:776-798 | Polling keeps every queue within its cap |
| Engine.PolicyOutcome | app.py:1033-1106 | The override and scene overlay of the class policy; the pending commands handed over and their key removed; the active sessions from an unsaved reconcile |
| Engine.StartOutcome | app.py:2031-2042 | Not found iff no session has the id, changing nothing; otherwise the id becomes active and manual; queues untouched |
| Engine.StartKeepsActive | app.py:2036-2040 | A started session stays active through every later reconcile |
| Engine.EndDoc | app.py:2044-2051 | The id leaves the active set, every session carrying it gets `manual` false, and both queue maps stay |
| Engine.EndLeavesScheduleOnly | app.py:2044-2051 | After end, the next reconcile brings the session back iff its schedule matches |
| Engine.DraftSession | app.py:1996-2004 | The id is the given one or "sess_" plus the suffix; the name is the given one or "New Session"; teacher, students, controls and schedule are the given ones or "", [], the default controls and no entries; `manual` is the given flag |
| Engine.DeleteDoc | app.py:2017-2021 | The sessions with the id and its active mark go; both queue maps stay |
| Engine.DeletedNeverReactivates | app.py:2017-2021 | A deleted session is never active after reconciling |
| Engine.DeletedQueueOrphaned | app.py:2017-2021 | The poll right after a delete, by any student and for any active set, leaves the deleted id's queue as it was |
| Engine.RecreatedRevivesQueue | app.py:2005 | After a delete, a session created again with the same id that is active and lists the student makes the next poll deliver the old commands stamped for that id (app.py:787-795) |
| Engine.OneOffWindow | app.py:675-698 | A ten-minute one-off session is active ten seconds in and not seven hundred seconds in |
| Engine.NotifyQueued | app.py:722-766 | A notify for an active session is queued, stamped for it |
| Engine.NotifyReachesStudent | app.py:722-798 | A notify for an active session reaches an enrolled student's next poll |
| Engine.NotifyRefusedWhenInactive | app.py:740-742 | The same notify for an inactive session is refused as not active |
| Engine.OneOffScenario | app.py:675-798 | Send within the one-off window and the student receives the command; send after it and the send is refused |
| Engine.ReconcileActive | app.py:629-640 | The loop over the id map computes `Reconciled` |
| Engine.SortedList | app.py:715 | The result is sorted, duplicate-free, and holds exactly the set |
| Engine.ComposeEffectiveState | app.py:700-716 | The loop computes `EffectiveStateFor` |
| Engine.Store.Reconcile | app.py:2053-2058 | The saved active set becomes the reconciled one |
| Engine.Store.ActiveSessionIds | app.py:642-644 | Reconciles in place and returns the active set |
| Engine.Store.StudentActiveSessions | app.py:646-649 | Reconciles and returns the ids of the active sessions listing the student |
| Engine.Store.EnqueueSession | app.py:651-658 | The session queue becomes `Pushed` with cap 200; nothing else changes |
| Engine.Store.EnqueueStudent | app.py:759-762 | The student queue becomes `Pushed` with cap 50; nothing else changes |
| Engine.Store.SendCommand | app.py:722-766 | Leaves the status and document of `CommandOutcome` |
| Engine.Store.PushCommand | app.py:800-823 | Leaves the status and document of `PushOutcome` |
| Engine.Store.OpenTabs | app.py:1789-1817 | Leaves the status and document of `OpenTabsOutcome` |
| Engine.Store.TabsAction | app.py:1587-1604 | Leaves the status and document of `TabsActionOutcome` |
| Engine.Store.DrainLoop | app.py:787-795 | The loop leaves the queues and output of `DrainSessions` |
| Engine.Store.Poll | app.py:772-798 | Leaves the answer and document of `PollOutcome` |
| Engine.Store.Policy | app.py:1033-1106 | Answers `PolicyOutcome` and saves its document |
| Engine.Store.StateFor | app.py:2060-2064 | Answers `EffectiveStateFor` over an unsaved reconcile |
| Engine.Store.SetManualFlag | app.py:2039-2040 | The loop leaves `SetManual` of the sessions; nothing else changes |
| Engine.Store.Start | app.py:2031-2042 | Leaves the status and document of `StartOutcome` |
| Engine.Store.End | app.py:2044-2051 | Leaves `EndDoc` |
| Engine.Store.Upsert | app.py:1995-2007 | Builds `DraftSession` and puts it last, replacing any session with its id |
| Engine.Store.Update | app.py:2022-2029 | The find loop and the patch leave `Patched` |
| Engine.Store.Delete | app.py:2017-2021 | Leaves `DeleteDoc` |

## Left out

- Loading and saving the data file, the scenes files, sqlite, logging (`log_action`) and Flask itself: the document is an in-memory value, and each handler's effect is the document it would save.
- Concurrent requests and last-write-wins races between them.
- Parsing ISO instants and "H:M" texts: entries arrive parsed. A weekly field is absent, two integers, or malformed; a one-off bound is POSIX microseconds or absent.
- Python's `datetime.now()` and `time.time()`: the clock is a parameter. The random UUID suffix of a new session id is a parameter too.
- Text.AsciiLower: lower-cases ASCII letters only, not the whole of Unicode as `str.lower()` does.
- `api_policy`: only its session part, pending hand-over and scene overlay are modelled. The `paused` flag, the announcement, the categories and the other settings it reports are left out, and so is the rest of `student_overrides` beyond `focus_mode`.
- `_effective_allowlist_for_policy`, the off-task check, the heartbeat, the screenshots, the presence data, chat, DMs, attention checks and the WebRTC `PRESENT` relay: these handlers are outside the session engine.
- The other handlers that queue commands: the attention check, the `/api/open_tabs` alias, classroom polls, exam start and end, and notifications (app.py:1501, app.py:1571-1582, app.py:1743, app.py:1842-1849, app.py:1915). Their queue step is the same push as `Engine.Store.EnqueueSession` or `Engine.Store.EnqueueStudent`.
- `_session_scoping_after`, which applies the roster filter to responses, and the HTML injection of the locked teacher page. The filter itself is modelled (`Roster.Filter`).
- Stored documents are typed as well-formed: each session is an object whose `schedule` is an object with a list of object entries, whose `students` is a list of strings, and whose `days` hold integers. Python behaves differently on other shapes, and the model does not capture it. A non-object `schedule` or entry makes `sch.get` or `ent.get` raise (app.py:691, app.py:693), so every reconcile fails. `POST /api/sessions` stores whatever `schedule` it is given (app.py:2001). A string `students` turns the membership test into a substring test (app.py:649, app.py:707) and the roster into a set of characters (app.py:2174). A `days` list holding 1.0 or true matches weekday 1.
- Engine.Store.Update: the patch arrives decoded. A PUT body that is not an object is not modelled.
- Engine.Store.Upsert: the new session arrives decoded. A truthy `POST /api/sessions` body that is not an object, such as `[1]` or `"x"`, makes `body.get("id")` raise (app.py:1997); the handler answers 500 and saves nothing. This failure is not modelled.
- Policy.CurrentScene: the scenes file is typed as well-formed: each scene is a non-empty object and `current` is an object or absent. Python behaves differently on other shapes, and the model does not capture it. A matched empty scene `{}` is falsy, so Python skips it and searches the blocked bucket next (app.py:1070, app.py:1073); the model takes the `{}` as the scene. `PUT /scene.json` stores any `current` value (app.py:1375).
- Engine.PolicyOutcome: answers for every scenes value. A truthy `current` that is not an object makes `current.get("id")` raise (app.py:1067) whenever a bucket holds a scene, so `api_policy` answers 500; this failure is not modelled.
- The GET of a single session (`api_session_item` GET): it only reads.
- `_looks_like_email`: nothing in the engine calls it.
- Rejections that Flask raises before a handler runs (a body that is not JSON, HTTP 415).
- Session ids are strings throughout. Python also accepts a non-string `id` in a session or a request; this is modelled only where a handler raises on it (`Engine.ActiveLookup`).
- The `ai_routes.py`, `ai_classifier.py` and `sso_google.py` modules: HTTP and database handlers, a network classifier, and the OAuth flow.
