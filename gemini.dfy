/** The content service, reduced to what its callers can observe: each call either
    returns a value or throws an Error with a fixed message. Prompts, response
    schemas, the network call and JSON parsing are outside the model; the model's
    `response` parameter stands for what the AI call and the parse produced
    (`None` when either of them threw). */
module Gemini {
  import opened Wrappers
  import opened CourseTypes

  /** What a rejected promise carries: an `Error` with its message, or any other value. */
  datatype Thrown = ErrorThrown(message: string) | NonErrorThrown

  /** One element of the syllabus response (the fields the response schema requires). */
  datatype SyllabusItem = SyllabusItem(id: int, title: string, shortDescription: string)

  const MissingKeyMessage := "API Key not found"
  const SyllabusFailureMessage := "Failed to generate course syllabus. Please try again."
  const ContentFailureMessage := "Failed to load chapter content."

  /** `process.env.API_KEY || ''` is tested with `!apiKey`: only the empty string fails. */
  predicate HasKey(apiKey: string)
  {
    apiKey != ""
  }

  /** A chapter as the syllabus generator hands it out: not completed, no content,
      not loading. */
  predicate IsFresh(c: Chapter)
  {
    !c.isCompleted && c.content.None? && !c.isLoading
  }

  /** The spread `{...item, isCompleted: false, content: null, isLoading: false}`. */
  function FreshChapter(item: SyllabusItem): (c: Chapter)
    ensures IsFresh(c)
    ensures c.id == item.id && c.title == item.title && c.shortDescription == item.shortDescription
  {
    Chapter(item.id, item.title, item.shortDescription, false, None, false)
  }

  function FreshChapters(items: seq<SyllabusItem>): (cs: seq<Chapter>)
    ensures |cs| == |items|
    ensures forall i :: 0 <= i < |cs| ==> cs[i] == FreshChapter(items[i])
  {
    seq(|items|, i requires 0 <= i < |items| => FreshChapter(items[i]))
  }

  /** generateSyllabus: missing key first, then any failure of the call or the parse. */
  function GenerateSyllabus(apiKey: string, response: Option<seq<SyllabusItem>>): (r: Result<seq<Chapter>, Thrown>)
    ensures !HasKey(apiKey) ==> r == Failure(ErrorThrown(MissingKeyMessage))
    ensures HasKey(apiKey) && response.None? ==> r == Failure(ErrorThrown(SyllabusFailureMessage))
    ensures r.Success? <==> HasKey(apiKey) && response.Some?
    ensures r.Success? ==>
              && |r.value| == |response.value|
              && forall i :: 0 <= i < |r.value| ==> IsFresh(r.value[i]) && r.value[i].id == response.value[i].id
    ensures r.Success? ==> r.value == FreshChapters(response.value)
    ensures r.Failure? ==> r.error.ErrorThrown? && r.error.message != ""
  {
    if !HasKey(apiKey) then Failure(ErrorThrown(MissingKeyMessage))
    else if response.None? then Failure(ErrorThrown(SyllabusFailureMessage))
    else Success(FreshChapters(response.value))
  }

  /** generateChapterContent: missing key first, then any failure of the call or the parse. */
  function GenerateChapterContent(apiKey: string, response: Option<ChapterContent>): (r: Result<ChapterContent, Thrown>)
    ensures !HasKey(apiKey) ==> r == Failure(ErrorThrown(MissingKeyMessage))
    ensures HasKey(apiKey) && response.None? ==> r == Failure(ErrorThrown(ContentFailureMessage))
    ensures r.Success? <==> HasKey(apiKey) && response.Some?
    ensures r.Success? ==> r.value == response.value
    ensures r.Failure? ==> r.error.ErrorThrown? && r.error.message != ""
  {
    if !HasKey(apiKey) then Failure(ErrorThrown(MissingKeyMessage))
    else if response.None? then Failure(ErrorThrown(ContentFailureMessage))
    else Success(response.value)
  }
}
