/** The top-level component (App.tsx): the course state record and the active tab,
    the handlers and effects that change them, and which screen is shown for a state.
    Each handler or effect step is a function on CourseState; class Course holds the
    two pieces of component state and its methods perform these steps. */
module CourseApp {
  import opened Wrappers
  import opened CourseTypes
  import Gemini
  import TheoryText
  import Navigation

  const UnknownErrorMessage := "Unknown error occurred"
  const ContentErrorMessage := "Failed to load chapter content."

  /** The state the component starts with: nothing loaded, syllabus being generated. */
  function InitialState(): CourseState
  {
    CourseState([], None, true, None)
  }

  /** `err instanceof Error ? err.message : "Unknown error occurred"`. */
  function ErrorMessage(e: Gemini.Thrown): string
  {
    match e
    case ErrorThrown(m) => m
    case NonErrorThrown => UnknownErrorMessage
  }

  /** JavaScript truthiness of a `string | null`: null and "" are falsy. */
  predicate Truthy(e: Option<string>)
  {
    e.Some? && e.value != ""
  }

  /** `cs.findIndex(c => c.id === id)`: the first position holding id, or -1. */
  function FindIndex(cs: seq<Chapter>, id: int): (r: int)
    ensures -1 <= r < |cs|
    ensures r >= 0 ==> cs[r].id == id
    ensures forall j :: 0 <= j < |cs| && (r == -1 || j < r) ==> cs[j].id != id
  {
    if cs == [] then -1
    else if cs[0].id == id then 0
    else
      var k := FindIndex(cs[1..], id);
      assert forall j :: 1 <= j < |cs| ==> cs[j] == cs[1..][j - 1];
      if k == -1 then -1 else k + 1
  }

  /** `cs.find(c => c.id === currentChapterId)`; no number equals null. */
  function Find(cs: seq<Chapter>, currentChapterId: Option<int>): (r: Option<Chapter>)
    ensures r.Some? <==> currentChapterId.Some? && exists i :: 0 <= i < |cs| && cs[i].id == currentChapterId.value
    ensures r.Some? ==> r.value == cs[FindIndex(cs, currentChapterId.value)]
  {
    if currentChapterId.None? then None
    else
      var k := FindIndex(cs, currentChapterId.value);
      if k == -1 then None else Some(cs[k])
  }

  predicate AllFresh(cs: seq<Chapter>)
  {
    forall i :: 0 <= i < |cs| ==> Gemini.IsFresh(cs[i])
  }

  // ---------------------------------------------------------------------------
  // initCourse

  /** The state after the syllabus request settles. On success the syllabus is
      stored and its first chapter (if any) selected; on failure the error message
      is stored. Either way generation is over. The syllabus arrives as the generator
      builds it: every chapter fresh. */
  function AfterInit(s: CourseState, outcome: Result<seq<Chapter>, Gemini.Thrown>): (r: CourseState)
    requires outcome.Success? ==> AllFresh(outcome.value)
    ensures !r.isGeneratingSyllabus
    ensures outcome.Success? ==>
              && r.syllabus == outcome.value && r.error == s.error
              && r.currentChapterId == (if outcome.value == [] then None else Some(outcome.value[0].id))
    ensures outcome.Failure? ==>
              && r.syllabus == s.syllabus && r.currentChapterId == s.currentChapterId
              && r.error == Some(ErrorMessage(outcome.error))
  {
    match outcome
    case Success(syllabus) =>
      s.(syllabus := syllabus, isGeneratingSyllabus := false,
         currentChapterId := if |syllabus| > 0 then Some(syllabus[0].id) else None)
    case Failure(e) =>
      s.(isGeneratingSyllabus := false, error := Some(ErrorMessage(e)))
  }

  // ---------------------------------------------------------------------------
  // loadContent: the guard, the begin step and the finish step

  /** The index loadContent starts a fetch for, or None when it returns early: no
      chapter selected, the selected id not in the syllabus, or the (first) chapter
      with that id already has content or is loading. */
  function LoadTarget(s: CourseState): (r: Option<nat>)
    ensures r.Some? ==>
              && r.value < |s.syllabus|
              && s.currentChapterId == Some(s.syllabus[r.value].id)
              && s.syllabus[r.value].content.None? && !s.syllabus[r.value].isLoading
              && forall j :: 0 <= j < r.value ==> Some(s.syllabus[j].id) != s.currentChapterId
    ensures r.None? <==>
              || s.currentChapterId.None?
              || (forall i :: 0 <= i < |s.syllabus| ==> Some(s.syllabus[i].id) != s.currentChapterId)
              || (var k := FindIndex(s.syllabus, s.currentChapterId.value);
                  k >= 0 && (s.syllabus[k].content.Some? || s.syllabus[k].isLoading))
  {
    if s.currentChapterId.None? then None
    else
      var k := FindIndex(s.syllabus, s.currentChapterId.value);
      if k == -1 then None
      else if s.syllabus[k].content.Some? || s.syllabus[k].isLoading then None
      else Some(k)
  }

  /** What the effect's closure keeps while the fetch is in flight: the index, the
      chapter as it was, and the syllabus it saw (`state.syllabus` of that render). */
  datatype Ticket = Ticket(index: nat, chapter: Chapter, snapshot: seq<Chapter>)

  /** A ticket as the begin step issues it. */
  predicate TicketValid(t: Ticket)
  {
    && t.index < |t.snapshot|
    && t.snapshot[t.index] == t.chapter
    && t.chapter.content.None? && !t.chapter.isLoading
  }

  datatype Begun = Begun(state: CourseState, ticket: Option<Ticket>)

  /** The begin step: when LoadTarget finds an index, copy the syllabus, mark that
      chapter loading, and remember the ticket. Nothing else changes. */
  function AfterBegin(s: CourseState): (b: Begun)
    ensures b.ticket.None? <==> LoadTarget(s).None?
    ensures b.ticket.None? ==> b.state == s
    ensures b.ticket.Some? ==>
              var i := LoadTarget(s).value;
              && b.ticket.value == Ticket(i, s.syllabus[i], s.syllabus)
              && TicketValid(b.ticket.value)
              && b.state.(syllabus := s.syllabus) == s
              && |b.state.syllabus| == |s.syllabus|
              && b.state.syllabus[i] == s.syllabus[i].(isLoading := true)
              && forall j :: 0 <= j < |s.syllabus| && j != i ==> b.state.syllabus[j] == s.syllabus[j]
  {
    match LoadTarget(s)
    case None => Begun(s, None)
    case Some(i) =>
      var chapter := s.syllabus[i];
      Begun(s.(syllabus := s.syllabus[i := chapter.(isLoading := true)]), Some(Ticket(i, chapter, s.syllabus)))
  }

  /** The finish step as written: both branches rebuild the syllabus from the
      ticket's snapshot, not from the latest state. A success stores the content; a
      failure leaves content absent and sets the error message. */
  function AfterFinish(s: CourseState, t: Ticket, outcome: Result<ChapterContent, Gemini.Thrown>): (r: CourseState)
    requires TicketValid(t)
    ensures r.currentChapterId == s.currentChapterId && r.isGeneratingSyllabus == s.isGeneratingSyllabus
    ensures |r.syllabus| == |t.snapshot|
    ensures forall j :: 0 <= j < |t.snapshot| && j != t.index ==> r.syllabus[j] == t.snapshot[j]
    ensures !r.syllabus[t.index].isLoading
    ensures outcome.Success? ==>
              r.syllabus[t.index] == t.chapter.(content := Some(outcome.value)) && r.error == s.error
    ensures outcome.Failure? ==>
              r.syllabus[t.index] == t.chapter && r.syllabus == t.snapshot && r.error == Some(ContentErrorMessage)
  {
    match outcome
    case Success(content) =>
      s.(syllabus := t.snapshot[t.index := t.chapter.(content := Some(content), isLoading := false)])
    case Failure(_) =>
      assert t.snapshot[t.index := t.chapter.(isLoading := false)] == t.snapshot;
      s.(syllabus := t.snapshot[t.index := t.chapter.(isLoading := false)], error := Some(ContentErrorMessage))
  }

  /** With no step in between, a successful load stores the content on the chosen
      chapter and turns its loading flag back off; nothing else differs from the
      state the load began in, and the chapter is not fetched again. */
  lemma SequentialLoadSucceeds(s: CourseState, content: ChapterContent)
    requires LoadTarget(s).Some?
    ensures var i := LoadTarget(s).value;
            var b := AfterBegin(s);
            var r := AfterFinish(b.state, b.ticket.value, Success(content));
            && r == s.(syllabus := s.syllabus[i := s.syllabus[i].(content := Some(content))])
            && LoadTarget(r).None?
  {
    var i := LoadTarget(s).value;
    var b := AfterBegin(s);
    var r := AfterFinish(b.state, b.ticket.value, Success(content));
    assert r.syllabus == s.syllabus[i := s.syllabus[i].(content := Some(content))];
    assert FindIndex(r.syllabus, s.currentChapterId.value) == i;
  }

  /** With no step in between, a failed load leaves the syllabus exactly as before
      the load began and records the error, so the same chapter is the target again. */
  lemma SequentialLoadFailsAndRetries(s: CourseState, e: Gemini.Thrown)
    requires LoadTarget(s).Some?
    ensures var b := AfterBegin(s);
            var r := AfterFinish(b.state, b.ticket.value, Failure(e));
            && r == s.(error := Some(ContentErrorMessage))
            && LoadTarget(r) == LoadTarget(s)
  {
  }

  // ---------------------------------------------------------------------------
  // handleSelectChapter, handleQuizComplete

  /** handleSelectChapter's state update (it also resets the tab to Theory). */
  function AfterSelect(s: CourseState, id: int): (r: CourseState)
    ensures r.currentChapterId == Some(id)
    ensures r.(currentChapterId := s.currentChapterId) == s
  {
    s.(currentChapterId := Some(id))
  }

  /** `syllabus.map(c => c.id === id ? {...c, isCompleted: true} : c)`. */
  function MarkCompleted(cs: seq<Chapter>, id: int): (r: seq<Chapter>)
    ensures |r| == |cs|
    ensures forall i :: 0 <= i < |cs| ==>
              r[i] == if cs[i].id == id then cs[i].(isCompleted := true) else cs[i]
  {
    seq(|cs|, i requires 0 <= i < |cs| => if cs[i].id == id then cs[i].(isCompleted := true) else cs[i])
  }

  /** handleQuizComplete: nothing without a selected chapter. */
  function AfterQuizComplete(s: CourseState): (r: CourseState)
    ensures s.currentChapterId.None? ==> r == s
    ensures r.(syllabus := s.syllabus) == s
    ensures |r.syllabus| == |s.syllabus|
  {
    if s.currentChapterId.None? then s
    else s.(syllabus := MarkCompleted(s.syllabus, s.currentChapterId.value))
  }

  /** Quiz completion marks exactly the chapters carrying the current id and leaves
      every other chapter, and each chapter's content and loading flag, as it was. */
  lemma QuizCompleteMarksCurrent(s: CourseState)
    requires s.currentChapterId.Some?
    ensures forall i :: 0 <= i < |s.syllabus| ==>
              && AfterQuizComplete(s).syllabus[i].isCompleted == (s.syllabus[i].isCompleted || s.syllabus[i].id == s.currentChapterId.value)
              && AfterQuizComplete(s).syllabus[i].(isCompleted := s.syllabus[i].isCompleted) == s.syllabus[i]
  {
  }

  /** Completing a quiz twice is the same as completing it once. */
  lemma QuizCompleteIdempotent(s: CourseState)
    ensures AfterQuizComplete(AfterQuizComplete(s)) == AfterQuizComplete(s)
  {
    if s.currentChapterId.Some? {
      var once := AfterQuizComplete(s);
      var twice := AfterQuizComplete(once);
      assert twice.syllabus == once.syllabus;
    }
  }

  /** Completing a quiz never lowers the sidebar's progress. */
  lemma QuizCompleteNeverLowersProgress(s: CourseState)
    ensures Navigation.Progress(AfterQuizComplete(s).syllabus) >= Navigation.Progress(s.syllabus)
  {
    Navigation.ProgressMonotone(s.syllabus, AfterQuizComplete(s).syllabus);
  }

  /** Clicking the i-th sidebar entry selects that chapter, which the sidebar then
      shows as the active one. */
  lemma ClickedEntryBecomesActive(s: CourseState, i: nat)
    requires i < |s.syllabus|
    ensures var id := Navigation.Entries(s.syllabus, s.currentChapterId)[i].onSelect;
            && id == Some(s.syllabus[i].id)
            && var r := AfterSelect(s, id.value);
               Navigation.Entries(r.syllabus, r.currentChapterId)[i].isActive
  {
  }

  // ---------------------------------------------------------------------------
  // What is rendered

  datatype Panel = TheoryPanel(lines: seq<TheoryText.Line>) | LabPanel(assignment: Assignment) | QuizPanel(questions: seq<QuizQuestion>)

  /** The content area below the header. */
  datatype ContentArea = Spinner | Tabs(panel: Panel) | LoadFailedMessage

  /** In the main layout, `sidebar` and `progress` are what the chapter navigation
      draws, and `header` is the current chapter's title when the header bar is shown. */
  datatype Screen =
    | GeneratingScreen
    | ErrorScreen(message: string)
    | MainLayout(sidebar: seq<Navigation.Entry>, progress: nat, header: Option<string>, area: ContentArea)

  function PanelFor(content: ChapterContent, tab: TabView): Panel
  {
    match tab
    case Theory => TheoryPanel(TheoryText.Render(content.theory))
    case Lab => LabPanel(content.assignment)
    case Quiz => QuizPanel(content.quiz)
  }

  /** The content area: the spinner while loading, else the tabs when content is
      present, else the failure message (also when no chapter is current). */
  function AreaFor(current: Option<Chapter>, tab: TabView): (a: ContentArea)
    ensures a.Spinner? <==> current.Some? && current.value.isLoading
    ensures a.Tabs? <==> current.Some? && !current.value.isLoading && current.value.content.Some?
    ensures a.Tabs? ==> a.panel == PanelFor(current.value.content.value, tab)
  {
    if current.Some? && current.value.isLoading then Spinner
    else if current.Some? && current.value.content.Some? then Tabs(PanelFor(current.value.content.value, tab))
    else LoadFailedMessage
  }

  /** The rendered screen: generating first, then the error screen for a truthy error
      with an empty syllabus, otherwise the main layout. */
  function View(s: CourseState, tab: TabView): (v: Screen)
    ensures v.GeneratingScreen? <==> s.isGeneratingSyllabus
    ensures v.ErrorScreen? <==> !s.isGeneratingSyllabus && Truthy(s.error) && |s.syllabus| == 0
    ensures v.ErrorScreen? ==> v.message == s.error.value
    ensures v.MainLayout? ==>
              var current := Find(s.syllabus, s.currentChapterId);
              && v.sidebar == Navigation.Entries(s.syllabus, s.currentChapterId)
              && v.progress == Navigation.Progress(s.syllabus)
              && (v.header.Some? <==> current.Some?)
              && (current.Some? ==> v.header.value == current.value.title)
              && v.area == AreaFor(current, tab)
  {
    if s.isGeneratingSyllabus then GeneratingScreen
    else if Truthy(s.error) && |s.syllabus| == 0 then ErrorScreen(s.error.value)
    else
      var current := Find(s.syllabus, s.currentChapterId);
      MainLayout(Navigation.Entries(s.syllabus, s.currentChapterId), Navigation.Progress(s.syllabus),
                 if current.Some? then Some(current.value.title) else None, AreaFor(current, tab))
  }

  /** Before the syllabus arrives the loading screen is shown. */
  lemma StartsOnGeneratingScreen(tab: TabView)
    ensures View(InitialState(), tab) == GeneratingScreen
  {
  }

  /** A failed syllabus request shows the error screen with the service's message;
      every failure of the service carries a non-empty message. */
  lemma FailedSyllabusShowsError(apiKey: string, response: Option<seq<Gemini.SyllabusItem>>, tab: TabView)
    requires Gemini.GenerateSyllabus(apiKey, response).Failure?
    ensures var e := Gemini.GenerateSyllabus(apiKey, response).error;
            View(AfterInit(InitialState(), Failure(e)), tab) == ErrorScreen(ErrorMessage(e))
  {
  }

  /** A thrown value whose message is empty reads as no error: the main layout is
      shown, with an empty sidebar at 0%, no chapter and the failure message. */
  lemma EmptyErrorMessageShowsMainLayout(tab: TabView)
    ensures View(AfterInit(InitialState(), Failure(Gemini.ErrorThrown(""))), tab) == MainLayout([], 0, None, LoadFailedMessage)
  {
  }

  /** A successful syllabus selects the first chapter, whose content load begins
      right away (an empty syllabus selects nothing and begins nothing). */
  lemma LoadedSyllabusBeginsFirstChapter(apiKey: string, items: seq<Gemini.SyllabusItem>)
    requires Gemini.HasKey(apiKey)
    ensures var cs := Gemini.GenerateSyllabus(apiKey, Some(items)).value;
            var s := AfterInit(InitialState(), Success(cs));
            && s.currentChapterId == (if items == [] then None else Some(items[0].id))
            && LoadTarget(s) == (if items == [] then None else Some(0))
  {
  }

  /** Once a load begins, the selected chapter shows the spinner. */
  lemma BeganLoadShowsSpinner(s: CourseState, tab: TabView)
    requires !s.isGeneratingSyllabus && LoadTarget(s).Some?
    ensures View(AfterBegin(s).state, tab).MainLayout?
    ensures View(AfterBegin(s).state, tab).area == Spinner
  {
    var i := LoadTarget(s).value;
    var b := AfterBegin(s).state;
    assert FindIndex(b.syllabus, s.currentChapterId.value) == i;
  }

  /** When a load completes with no step in between, the tabs show the new content
      on success and the failure message on failure. */
  lemma FinishedLoadShowsResult(s: CourseState, outcome: Result<ChapterContent, Gemini.Thrown>, tab: TabView)
    requires !s.isGeneratingSyllabus && LoadTarget(s).Some?
    ensures var b := AfterBegin(s);
            var v := View(AfterFinish(b.state, b.ticket.value, outcome), tab);
            && v.MainLayout?
            && v.area == (if outcome.Success? then Tabs(PanelFor(outcome.value, tab)) else LoadFailedMessage)
  {
    var i := LoadTarget(s).value;
    var b := AfterBegin(s);
    var r := AfterFinish(b.state, b.ticket.value, outcome);
    assert FindIndex(r.syllabus, s.currentChapterId.value) == i;
  }

  // ---------------------------------------------------------------------------
  // The component

  class Course {
    var state: CourseState
    var activeTab: TabView

    constructor ()
      ensures state == InitialState() && activeTab == Theory
    {
      state := InitialState();
      activeTab := Theory;
    }

    /** initCourse once the syllabus request settles. */
    method InitCourse(outcome: Result<seq<Chapter>, Gemini.Thrown>)
      requires outcome.Success? ==> AllFresh(outcome.value)
      modifies this
      ensures state == AfterInit(old(state), outcome) && activeTab == old(activeTab)
    {
      match outcome {
        case Success(syllabus) =>
          state := state.(syllabus := syllabus, isGeneratingSyllabus := false,
                          currentChapterId := if |syllabus| > 0 then Some(syllabus[0].id) else None);
        case Failure(e) =>
          var message := if e.ErrorThrown? then e.message else UnknownErrorMessage;
          state := state.(isGeneratingSyllabus := false, error := Some(message));
      }
    }

    /** loadContent up to the await: the early returns, then the loading flag.
        The returned ticket is what the pending request carries. */
    method BeginLoadContent() returns (ticket: Option<Ticket>)
      modifies this
      ensures ticket == AfterBegin(old(state)).ticket
      ensures state == AfterBegin(old(state)).state && activeTab == old(activeTab)
    {
      if state.currentChapterId.None? {
        return None;
      }
      var chapterIdx := FindIndex(state.syllabus, state.currentChapterId.value);
      if chapterIdx == -1 {
        return None;
      }
      var chapter := state.syllabus[chapterIdx];
      if chapter.content.Some? || chapter.isLoading {
        return None;
      }
      var newSyllabus := state.syllabus[chapterIdx := chapter.(isLoading := true)];
      ticket := Some(Ticket(chapterIdx, chapter, state.syllabus));
      state := state.(syllabus := newSyllabus);
    }

    /** loadContent after the await, rebuilding from the ticket's snapshot. */
    method FinishLoadContent(ticket: Ticket, outcome: Result<ChapterContent, Gemini.Thrown>)
      requires TicketValid(ticket)
      modifies this
      ensures state == AfterFinish(old(state), ticket, outcome) && activeTab == old(activeTab)
    {
      var updatedSyllabus := ticket.snapshot;
      match outcome {
        case Success(content) =>
          updatedSyllabus := updatedSyllabus[ticket.index := ticket.chapter.(content := Some(content), isLoading := false)];
          state := state.(syllabus := updatedSyllabus);
        case Failure(_) =>
          updatedSyllabus := updatedSyllabus[ticket.index := ticket.chapter.(isLoading := false)];
          state := state.(syllabus := updatedSyllabus, error := Some(ContentErrorMessage));
      }
    }

    method HandleSelectChapter(id: int)
      modifies this
      ensures state == AfterSelect(old(state), id) && activeTab == Theory
    {
      state := state.(currentChapterId := Some(id));
      activeTab := Theory;
    }

    method HandleQuizComplete()
      modifies this
      ensures state == AfterQuizComplete(old(state)) && activeTab == old(activeTab)
    {
      if state.currentChapterId.None? {
        return;
      }
      var updatedSyllabus := MarkCompleted(state.syllabus, state.currentChapterId.value);
      state := state.(syllabus := updatedSyllabus);
    }

    /** The three tab buttons of the header. */
    method SetActiveTab(tab: TabView)
      modifies this
      ensures activeTab == tab && state == old(state)
    {
      activeTab := tab;
    }

    /** The screen the component renders now. */
    method Render() returns (screen: Screen)
      ensures screen == View(state, activeTab)
    {
      screen := View(state, activeTab);
    }
  }
}
