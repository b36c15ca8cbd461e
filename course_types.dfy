/** The records of types.ts: chapters, their lazily generated content, the quiz
    questions inside that content, the top-level course state and the tab names. */
module CourseTypes {
  import opened Wrappers

  /** One multiple-choice question; options are listed in display order. */
  datatype QuizQuestion = QuizQuestion(
    question: string,
    options: seq<string>,
    correctAnswerIndex: int,
    explanation: string)

  /** The lab assignment shown in the Lab tab. */
  datatype Assignment = Assignment(
    title: string,
    description: string,
    starterCode: string,
    expectedOutput: string)

  /** What the content generator returns for one chapter. */
  datatype ChapterContent = ChapterContent(
    theory: string,
    assignment: Assignment,
    quiz: seq<QuizQuestion>)

  /** A syllabus entry. `content` is `null`/absent until loaded; an absent
      `isLoading` reads as false, so it is a plain boolean here. */
  datatype Chapter = Chapter(
    id: int,
    title: string,
    shortDescription: string,
    isCompleted: bool,
    content: Option<ChapterContent>,
    isLoading: bool)

  /** The state record held by the top-level component. */
  datatype CourseState = CourseState(
    syllabus: seq<Chapter>,
    currentChapterId: Option<int>,
    isGeneratingSyllabus: bool,
    error: Option<string>)

  datatype TabView = Theory | Lab | Quiz
}
