/** Content loads that overlap. The effect in App.tsx re-runs whenever the selected
    chapter or the syllabus changes, so a second load can begin, and other updates
    can happen, while a fetch is still pending. A Session pairs the course state with
    the tickets of the pending fetches; events are the component's steps in any order. */
module InFlight {
  import opened Wrappers
  import opened CourseTypes
  import Gemini
  import opened CourseApp

  datatype Event =
    | Begin                                                       // the effect runs
    | Finish(k: nat, outcome: Result<ChapterContent, Gemini.Thrown>)  // the k-th pending fetch settles
    | Select(id: int)                                             // a sidebar click
    | CompleteQuiz                                                // the quiz reports completion

  datatype Session = Session(state: CourseState, pending: seq<Ticket>)

  predicate TicketsValid(ss: Session)
  {
    forall k :: 0 <= k < |ss.pending| ==> TicketValid(ss.pending[k])
  }

  /** At most one fetch in flight per chapter, each on a chapter that is marked
      loading and has no content. */
  predicate InFlightOk(ss: Session)
  {
    && (forall k :: 0 <= k < |ss.pending| ==> Tracked(ss.state, ss.pending[k]))
    && (forall k, l :: 0 <= k < l < |ss.pending| ==> ss.pending[k].index != ss.pending[l].index)
  }

  /** A pending ticket's chapter is marked loading and still has no content. */
  predicate Tracked(s: CourseState, t: Ticket)
  {
    && TicketValid(t)
    && t.index < |s.syllabus|
    && s.syllabus[t.index].isLoading
    && s.syllabus[t.index].content.None?
  }

  function Without(ts: seq<Ticket>, k: nat): (r: seq<Ticket>)
    requires k < |ts|
    ensures |r| == |ts| - 1
    ensures forall j :: 0 <= j < |r| ==> r[j] == if j < k then ts[j] else ts[j + 1]
  {
    ts[..k] + ts[k + 1..]
  }

  /** The effect runs: when the guard lets a load begin, its ticket joins the end of
      the pending list; the fetches already pending stay as they were. */
  function BeginSession(ss: Session): (r: Session)
    ensures r.state == AfterBegin(ss.state).state
    ensures |r.pending| == |ss.pending| + (if LoadTarget(ss.state).Some? then 1 else 0)
    ensures r.pending[..|ss.pending|] == ss.pending
    ensures LoadTarget(ss.state).Some? ==> r.pending[|ss.pending|] == AfterBegin(ss.state).ticket.value
  {
    var b := AfterBegin(ss.state);
    Session(b.state, if b.ticket.Some? then ss.pending + [b.ticket.value] else ss.pending)
  }

  /** The component's steps with the finish step as written (rebuilt from the
      ticket's snapshot). A Finish naming no pending fetch does nothing. */
  function StepAsWritten(ss: Session, e: Event): (r: Session)
    requires TicketsValid(ss)
    ensures TicketsValid(r)
  {
    match e
    case Begin => BeginSession(ss)
    case Finish(k, outcome) =>
      if k < |ss.pending| then Session(AfterFinish(ss.state, ss.pending[k], outcome), Without(ss.pending, k)) else ss
    case Select(id) => Session(AfterSelect(ss.state, id), ss.pending)
    case CompleteQuiz => Session(AfterQuizComplete(ss.state), ss.pending)
  }

  function RunAsWritten(ss: Session, events: seq<Event>): (r: Session)
    requires TicketsValid(ss)
    ensures TicketsValid(r)
    decreases |events|
  {
    if events == [] then ss else RunAsWritten(StepAsWritten(ss, events[0]), events[1..])
  }

  /** The finish step with the update applied to the latest state
      (`setState(prev => ...)` rebuilding from `prev.syllabus`): only the loaded
      chapter's content and loading flag change. */
  function AfterFinishOnLatest(s: CourseState, t: Ticket, outcome: Result<ChapterContent, Gemini.Thrown>): (r: CourseState)
    requires t.index < |s.syllabus|
    ensures r.currentChapterId == s.currentChapterId && r.isGeneratingSyllabus == s.isGeneratingSyllabus
    ensures |r.syllabus| == |s.syllabus|
    ensures forall j :: 0 <= j < |s.syllabus| && j != t.index ==> r.syllabus[j] == s.syllabus[j]
    ensures !r.syllabus[t.index].isLoading
    ensures r.syllabus[t.index].(isLoading := s.syllabus[t.index].isLoading, content := s.syllabus[t.index].content)
            == s.syllabus[t.index]
    ensures outcome.Success? ==> r.syllabus[t.index].content == Some(outcome.value) && r.error == s.error
    ensures outcome.Failure? ==>
              r.syllabus[t.index].content == s.syllabus[t.index].content && r.error == Some(ContentErrorMessage)
  {
    var c := s.syllabus[t.index];
    match outcome
    case Success(content) =>
      s.(syllabus := s.syllabus[t.index := c.(content := Some(content), isLoading := false)])
    case Failure(_) =>
      s.(syllabus := s.syllabus[t.index := c.(isLoading := false)], error := Some(ContentErrorMessage))
  }

  /** The component's steps with the corrected finish step. Only a selection moves
      the current chapter, the syllabus keeps its length, and a finish that names a
      pending fetch removes exactly that one. */
  function StepCorrected(ss: Session, e: Event): (r: Session)
    requires InFlightOk(ss)
    ensures r.state.currentChapterId == if e.Select? then Some(e.id) else ss.state.currentChapterId
    ensures |r.state.syllabus| == |ss.state.syllabus|
    ensures e.Finish? && e.k < |ss.pending| ==> r.pending == Without(ss.pending, e.k)
  {
    match e
    case Begin => BeginSession(ss)
    case Finish(k, outcome) =>
      if k < |ss.pending| then Session(AfterFinishOnLatest(ss.state, ss.pending[k], outcome), Without(ss.pending, k)) else ss
    case Select(id) => Session(AfterSelect(ss.state, id), ss.pending)
    case CompleteQuiz => Session(AfterQuizComplete(ss.state), ss.pending)
  }

  /** Without overlap the two finish steps agree: the correction changes nothing for
      a load that completes before anything else happens. */
  lemma FinishStepsAgreeWithoutOverlap(s: CourseState, outcome: Result<ChapterContent, Gemini.Thrown>)
    requires LoadTarget(s).Some?
    ensures var b := AfterBegin(s);
            AfterFinish(b.state, b.ticket.value, outcome) == AfterFinishOnLatest(b.state, b.ticket.value, outcome)
  {
    var b := AfterBegin(s);
    var t := b.ticket.value;
    assert AfterFinish(b.state, t, outcome).syllabus == AfterFinishOnLatest(b.state, t, outcome).syllabus;
  }

  /** A begin step keeps the invariant: the chapter it marks had no fetch pending. */
  lemma BeginKeepsInFlight(ss: Session)
    requires InFlightOk(ss)
    ensures InFlightOk(BeginSession(ss))
    ensures AfterBegin(ss.state).ticket.Some? ==>
              forall k :: 0 <= k < |ss.pending| ==> ss.pending[k].index != AfterBegin(ss.state).ticket.value.index
  {
    var b := AfterBegin(ss.state);
    if b.ticket.Some? {
      var i := b.ticket.value.index;
      assert !ss.state.syllabus[i].isLoading;
      var r := BeginSession(ss);
      assert r.pending == ss.pending + [b.ticket.value];
      forall k | 0 <= k < |ss.pending|
        ensures ss.pending[k].index != i
        ensures Tracked(r.state, ss.pending[k])
      {
        assert Tracked(ss.state, ss.pending[k]);
      }
      assert r.pending[|ss.pending|] == b.ticket.value;
    }
  }

  predicate DistinctIndexes(ts: seq<Ticket>)
  {
    forall k, l :: 0 <= k < l < |ts| ==> ts[k].index != ts[l].index
  }

  /** Dropping a ticket keeps the remaining indexes distinct. */
  lemma WithoutKeepsDistinct(ts: seq<Ticket>, k: nat)
    requires k < |ts| && DistinctIndexes(ts)
    ensures DistinctIndexes(Without(ts, k))
  {
    var r := Without(ts, k);
    forall j, l | 0 <= j < l < |r|
      ensures r[j].index != r[l].index
    {
      var j', l' := if j < k then j else j + 1, if l < k then l else l + 1;
      assert r[j] == ts[j'] && r[l] == ts[l'] && j' < l';
    }
  }

  /** A corrected finish touches only its own chapter, which no other pending fetch
      names, so the other tickets stay tracked. */
  lemma FinishKeepsTracked(s: CourseState, ts: seq<Ticket>, k: nat, outcome: Result<ChapterContent, Gemini.Thrown>)
    requires k < |ts| && DistinctIndexes(ts)
    requires forall j :: 0 <= j < |ts| ==> Tracked(s, ts[j])
    requires ts[k].index < |s.syllabus|
    ensures forall j :: 0 <= j < |ts| - 1 ==> Tracked(AfterFinishOnLatest(s, ts[k], outcome), Without(ts, k)[j])
  {
    var r, rest := AfterFinishOnLatest(s, ts[k], outcome), Without(ts, k);
    forall j | 0 <= j < |rest|
      ensures Tracked(r, rest[j])
    {
      var j' := if j < k then j else j + 1;
      assert rest[j] == ts[j'] && j' != k;
      assert Tracked(s, ts[j']);
    }
  }

  /** A corrected finish keeps the invariant. */
  lemma FinishKeepsInFlight(ss: Session, k: nat, outcome: Result<ChapterContent, Gemini.Thrown>)
    requires InFlightOk(ss) && k < |ss.pending|
    ensures InFlightOk(StepCorrected(ss, Finish(k, outcome)))
  {
    assert DistinctIndexes(ss.pending);
    assert Tracked(ss.state, ss.pending[k]);
    WithoutKeepsDistinct(ss.pending, k);
    FinishKeepsTracked(ss.state, ss.pending, k, outcome);
  }

  /** Selecting a chapter or completing a quiz leaves every loading flag and every
      content as it was, so the invariant holds on. */
  lemma SelectAndCompleteKeepInFlight(ss: Session, id: int)
    requires InFlightOk(ss)
    ensures InFlightOk(StepCorrected(ss, Select(id)))
    ensures InFlightOk(StepCorrected(ss, CompleteQuiz))
  {
    var q := StepCorrected(ss, CompleteQuiz);
    forall k | 0 <= k < |q.pending| ensures Tracked(q.state, q.pending[k]) {
      assert Tracked(ss.state, ss.pending[k]);
    }
  }

  /** Every corrected step keeps the in-flight invariant. */
  lemma CorrectedStepKeepsInFlight(ss: Session, e: Event)
    requires InFlightOk(ss)
    ensures InFlightOk(StepCorrected(ss, e))
  {
    match e
    case Begin => BeginKeepsInFlight(ss);
    case Finish(k, outcome) => if k < |ss.pending| { FinishKeepsInFlight(ss, k, outcome); }
    case Select(id) => SelectAndCompleteKeepInFlight(ss, id);
    case CompleteQuiz => SelectAndCompleteKeepInFlight(ss, 0);
  }

  function RunCorrected(ss: Session, events: seq<Event>): (r: Session)
    requires InFlightOk(ss)
    ensures InFlightOk(r)
    decreases |events|
  {
    if events == [] then ss
    else
      CorrectedStepKeepsInFlight(ss, events[0]);
      RunCorrected(StepCorrected(ss, events[0]), events[1..])
  }

  /** Loaded content and completion marks survive every step; the syllabus length
      never changes. */
  predicate Keeps(before: CourseState, after: CourseState)
  {
    && |after.syllabus| == |before.syllabus|
    && forall i :: 0 <= i < |before.syllabus| ==>
         && (before.syllabus[i].content.Some? ==> after.syllabus[i].content == before.syllabus[i].content)
         && (before.syllabus[i].isCompleted ==> after.syllabus[i].isCompleted)
  }

  lemma CorrectedStepKeepsContent(ss: Session, e: Event)
    requires InFlightOk(ss)
    ensures Keeps(ss.state, StepCorrected(ss, e).state)
  {
  }

  /** With the corrected finish step, content once loaded is never replaced or lost
      and completion is never undone, whatever the order of events. */
  lemma {:induction false} CorrectedRunKeepsContent(ss: Session, events: seq<Event>)
    requires InFlightOk(ss)
    ensures Keeps(ss.state, RunCorrected(ss, events).state)
    decreases |events|
  {
    if events != [] {
      var next := StepCorrected(ss, events[0]);
      CorrectedStepKeepsContent(ss, events[0]);
      CorrectedStepKeepsInFlight(ss, events[0]);
      CorrectedRunKeepsContent(next, events[1..]);
    }
  }

  // ---------------------------------------------------------------------------
  // Traces of the finish step as written

  const ChapterOne := Chapter(1, "", "", false, None, false)
  const ChapterTwo := Chapter(2, "", "", false, None, false)
  const SomeQuestion := QuizQuestion("", ["", "", "", ""], 0, "")
  const SomeContent := ChapterContent("", Assignment("", "", "", ""), [SomeQuestion])

  /** Chapter 1 is selected on a syllabus of two fresh chapters, with nothing pending. */
  function TwoChapterSession(): (ss: Session)
    ensures InFlightOk(ss)
  {
    Session(CourseState([ChapterOne, ChapterTwo], Some(1), false, None), [])
  }

  /** Chapter 1 starts loading, the user moves to chapter 2, which starts loading,
      then chapter 1's fetch succeeds. Its finish restores chapter 2 from the earlier
      snapshot, clearing its loading flag, so the effect starts a second fetch for
      chapter 2 while the first is still pending. */
  lemma OverlappingLoadsFetchTwice()
    ensures var r := RunAsWritten(TwoChapterSession(), [Begin, Select(2), Begin, Finish(0, Success(SomeContent)), Begin]);
            && |r.pending| == 2 && r.pending[0].index == 1 && r.pending[1].index == 1
            && !InFlightOk(r)
  {
    var s0 := TwoChapterSession();
    var s1 := StepAsWritten(s0, Begin);
    assert s1.pending == [Ticket(0, ChapterOne, [ChapterOne, ChapterTwo])];
    var s2 := StepAsWritten(s1, Select(2));
    var s3 := StepAsWritten(s2, Begin);
    assert FindIndex(s2.state.syllabus, 2) == 1;
    assert s3.pending[1].index == 1;
    var s4 := StepAsWritten(s3, Finish(0, Success(SomeContent)));
    assert s4.pending == [s3.pending[1]];
    assert s4.state.syllabus[1] == ChapterTwo;
    var s5 := StepAsWritten(s4, Begin);
    assert FindIndex(s4.state.syllabus, 2) == 1;
    assert s5.pending == s4.pending + [AfterBegin(s4.state).ticket.value];
    assert RunAsWritten(s4, [Begin]) == s5;
    assert RunAsWritten(s3, [Finish(0, Success(SomeContent)), Begin]) == s5;
    assert RunAsWritten(s2, [Begin, Finish(0, Success(SomeContent)), Begin]) == s5;
    assert RunAsWritten(s1, [Select(2), Begin, Finish(0, Success(SomeContent)), Begin]) == s5;
  }

  /** The same events with the corrected finish step leave one fetch pending, for
      chapter 2, which stays marked loading. */
  lemma CorrectedOverlapFetchesOnce()
    ensures var r := RunCorrected(TwoChapterSession(), [Begin, Select(2), Begin, Finish(0, Success(SomeContent)), Begin]);
            |r.pending| == 1 && r.pending[0].index == 1
  {
    var c0 := TwoChapterSession();
    var c1 := StepCorrected(c0, Begin);
    CorrectedStepKeepsInFlight(c0, Begin);
    var c2 := StepCorrected(c1, Select(2));
    CorrectedStepKeepsInFlight(c1, Select(2));
    var c3 := StepCorrected(c2, Begin);
    CorrectedStepKeepsInFlight(c2, Begin);
    assert FindIndex(c2.state.syllabus, 2) == 1;
    var c4 := StepCorrected(c3, Finish(0, Success(SomeContent)));
    CorrectedStepKeepsInFlight(c3, Finish(0, Success(SomeContent)));
    assert c4.state.syllabus[1].isLoading;
    var c5 := StepCorrected(c4, Begin);
    assert FindIndex(c4.state.syllabus, 2) == 1;
    assert c5 == c4;
    assert RunCorrected(c4, [Begin]) == c5;
    assert RunCorrected(c3, [Finish(0, Success(SomeContent)), Begin]) == c5;
    assert RunCorrected(c2, [Begin, Finish(0, Success(SomeContent)), Begin]) == c5;
    assert RunCorrected(c1, [Select(2), Begin, Finish(0, Success(SomeContent)), Begin]) == c5;
  }

  /** Chapter 1 selected; chapter 2 already has content; nothing pending. */
  function LoadedSecondSession(): (ss: Session)
    ensures InFlightOk(ss)
  {
    Session(CourseState([ChapterOne, ChapterTwo.(content := Some(SomeContent))], Some(1), false, None), [])
  }

  /** Chapter 1 starts loading; the user moves to chapter 2 and completes its quiz;
      then chapter 1's fetch succeeds and restores chapter 2 from the earlier
      snapshot, undoing the completion. */
  lemma LateFinishUndoesCompletion()
    ensures var s0 := LoadedSecondSession();
            var beforeFinish := RunAsWritten(s0, [Begin, Select(2), CompleteQuiz]).state.syllabus;
            var afterFinish := RunAsWritten(s0, [Begin, Select(2), CompleteQuiz, Finish(0, Success(SomeContent))]).state.syllabus;
            && |beforeFinish| == |afterFinish| == 2
            && beforeFinish[1].isCompleted && !afterFinish[1].isCompleted
  {
    var s0 := LoadedSecondSession();
    var s1 := StepAsWritten(s0, Begin);
    var s2 := StepAsWritten(s1, Select(2));
    var s3 := StepAsWritten(s2, CompleteQuiz);
    assert s3.state.syllabus[1].isCompleted;
    var s4 := StepAsWritten(s3, Finish(0, Success(SomeContent)));
    assert !s4.state.syllabus[1].isCompleted;
    assert RunAsWritten(s2, [CompleteQuiz]) == s3;
    assert RunAsWritten(s1, [Select(2), CompleteQuiz]) == s3;
    assert RunAsWritten(s3, [Finish(0, Success(SomeContent))]) == s4;
    assert RunAsWritten(s2, [CompleteQuiz, Finish(0, Success(SomeContent))]) == s4;
    assert RunAsWritten(s1, [Select(2), CompleteQuiz, Finish(0, Success(SomeContent))]) == s4;
  }

  /** The same events with the corrected finish step keep the completion. */
  lemma CorrectedFinishKeepsCompletion()
    ensures var r := RunCorrected(LoadedSecondSession(), [Begin, Select(2), CompleteQuiz, Finish(0, Success(SomeContent))]);
            |r.state.syllabus| == 2 && r.state.syllabus[1].isCompleted
  {
    var c0 := LoadedSecondSession();
    var c1 := StepCorrected(c0, Begin);
    CorrectedStepKeepsInFlight(c0, Begin);
    var c2 := StepCorrected(c1, Select(2));
    CorrectedStepKeepsInFlight(c1, Select(2));
    var c3 := StepCorrected(c2, CompleteQuiz);
    CorrectedStepKeepsInFlight(c2, CompleteQuiz);
    assert c3.state.syllabus[1].isCompleted;
    var c4 := StepCorrected(c3, Finish(0, Success(SomeContent)));
    CorrectedStepKeepsInFlight(c3, Finish(0, Success(SomeContent)));
    CorrectedStepKeepsContent(c3, Finish(0, Success(SomeContent)));
    assert RunCorrected(c3, [Finish(0, Success(SomeContent))]) == c4;
    assert RunCorrected(c2, [CompleteQuiz, Finish(0, Success(SomeContent))]) == c4;
    assert RunCorrected(c1, [Select(2), CompleteQuiz, Finish(0, Success(SomeContent))]) == c4;
  }

  /** Running two event sequences one after the other is running their concatenation. */
  lemma {:induction false} RunAsWrittenAppend(ss: Session, a: seq<Event>, b: seq<Event>)
    requires TicketsValid(ss)
    ensures RunAsWritten(ss, a + b) == RunAsWritten(RunAsWritten(ss, a), b)
    decreases |a|
  {
    if a != [] {
      assert (a + b)[0] == a[0] && (a + b)[1..] == a[1..] + b;
      RunAsWrittenAppend(StepAsWritten(ss, a[0]), a[1..], b);
    } else {
      assert a + b == b;
    }
  }

  /** The session of OverlappingLoadsFetchTwice just before its last Begin: chapter 1
      loaded, and chapter 2's first fetch pending with the snapshot in which chapter 1
      is still loading. */
  lemma OverlapAfterFirstFinish()
    ensures RunAsWritten(TwoChapterSession(), [Begin, Select(2), Begin, Finish(0, Success(SomeContent))])
            == Session(CourseState([ChapterOne.(content := Some(SomeContent)), ChapterTwo], Some(2), false, None),
                       [Ticket(1, ChapterTwo, [ChapterOne.(isLoading := true), ChapterTwo])])
  {
    var ok := Success(SomeContent);
    var s0 := TwoChapterSession();
    var s1 := StepAsWritten(s0, Begin);
    assert s1.pending == [Ticket(0, ChapterOne, [ChapterOne, ChapterTwo])];
    var s2 := StepAsWritten(s1, Select(2));
    assert s2.state == CourseState([ChapterOne.(isLoading := true), ChapterTwo], Some(2), false, None);
    var s3 := StepAsWritten(s2, Begin);
    assert FindIndex(s2.state.syllabus, 2) == 1;
    assert s3.pending[1] == Ticket(1, ChapterTwo, s2.state.syllabus);
    var s4 := StepAsWritten(s3, Finish(0, ok));
    assert s4.pending == [s3.pending[1]];
    assert s4.state == CourseState([ChapterOne.(content := Some(SomeContent)), ChapterTwo], Some(2), false, None);
    assert RunAsWritten(s3, [Finish(0, ok)]) == s4;
    assert RunAsWritten(s2, [Begin, Finish(0, ok)]) == s4;
    assert RunAsWritten(s1, [Select(2), Begin, Finish(0, ok)]) == s4;
    assert RunAsWritten(s0, [Begin, Select(2), Begin, Finish(0, ok)]) == s4;
  }

  /** Chapter 1 starts loading, the user moves to chapter 2, which starts loading,
      chapter 1's fetch succeeds and chapter 2's second fetch begins and succeeds;
      then chapter 2's first fetch settles. It restores chapter 1 from the snapshot
      taken while chapter 1 was loading: with nothing left pending, chapter 1 has
      lost its content and stays marked loading, so selecting it again starts no
      fetch and its spinner never goes away. */
  lemma LateFinishLosesContent()
    ensures var r := RunAsWritten(TwoChapterSession(),
                                  [Begin, Select(2), Begin, Finish(0, Success(SomeContent)), Begin,
                                   Finish(1, Success(SomeContent)), Finish(0, Success(SomeContent))]);
            && r.pending == [] && |r.state.syllabus| == 2
            && r.state.syllabus[0].isLoading && r.state.syllabus[0].content.None?
            && LoadTarget(AfterSelect(r.state, 1)).None?
  {
    var ok := Success(SomeContent);
    var first := [Begin, Select(2), Begin, Finish(0, ok)];
    var rest := [Begin, Finish(1, ok), Finish(0, ok)];
    assert first + rest == [Begin, Select(2), Begin, Finish(0, ok), Begin, Finish(1, ok), Finish(0, ok)];
    RunAsWrittenAppend(TwoChapterSession(), first, rest);
    OverlapAfterFirstFinish();
    var s4 := RunAsWritten(TwoChapterSession(), first);
    var s5 := StepAsWritten(s4, Begin);
    assert FindIndex(s4.state.syllabus, 2) == 1;
    assert s5.pending == s4.pending + [AfterBegin(s4.state).ticket.value];
    var s6 := StepAsWritten(s5, Finish(1, ok));
    assert s6.pending == s4.pending;
    var s7 := StepAsWritten(s6, Finish(0, ok));
    assert s7.pending == [];
    assert s7.state.syllabus[0] == ChapterOne.(isLoading := true);
    assert FindIndex(s7.state.syllabus, 1) == 0;
    assert RunAsWritten(s6, [Finish(0, ok)]) == s7;
    assert RunAsWritten(s5, [Finish(1, ok), Finish(0, ok)]) == s7;
  }
}
