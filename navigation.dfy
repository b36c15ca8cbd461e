/** The chapter sidebar (components/ChapterNavigation.tsx): one entry per chapter
    with its position label, active flag and status icon, and the progress
    percentage at the bottom. It holds no state of its own. */
module Navigation {
  import opened Wrappers
  import opened CourseTypes

  /** `chapter.id === currentChapterId`; a number is never `===` to null. */
  predicate IsActive(chapter: Chapter, currentChapterId: Option<int>)
  {
    currentChapterId == Some(chapter.id)
  }

  /** The lock is a placeholder: every chapter is unlocked. */
  predicate IsLocked(chapter: Chapter)
  {
    false
  }

  datatype StatusIcon = CheckIcon | LockIcon | CircleIcon

  /** What one sidebar button shows and does. `onSelect` is the id handed to
      onSelectChapter when the button is clicked, or None when the click does nothing. */
  datatype Entry = Entry(chapterNumber: nat, isActive: bool, isLocked: bool, icon: StatusIcon, onSelect: Option<int>)

  function EntryFor(chapter: Chapter, index: nat, currentChapterId: Option<int>): Entry
  {
    var locked := IsLocked(chapter);
    Entry(
      index + 1,
      IsActive(chapter, currentChapterId),
      locked,
      if chapter.isCompleted then CheckIcon else if locked then LockIcon else CircleIcon,
      if locked then None else Some(chapter.id))
  }

  /** `chapters.map((chapter, index) => ...)`. */
  function Entries(chapters: seq<Chapter>, currentChapterId: Option<int>): (es: seq<Entry>)
    ensures |es| == |chapters|
  {
    seq(|chapters|, i requires 0 <= i < |chapters| => EntryFor(chapters[i], i, currentChapterId))
  }

  /** `chapters.filter(c => c.isCompleted).length`. */
  function CompletedCount(chapters: seq<Chapter>): (n: nat)
    ensures n <= |chapters|
    ensures n == 0 <==> forall i :: 0 <= i < |chapters| ==> !chapters[i].isCompleted
    ensures n == |chapters| <==> forall i :: 0 <= i < |chapters| ==> chapters[i].isCompleted
  {
    if chapters == [] then 0
    else (if chapters[0].isCompleted then 1 else 0) + CompletedCount(chapters[1..])
  }

  /** The displayed percentage: `Math.round(completed / total * 100) || 0`. With
      exact rationals, rounding half up of 100*c/t is (200*c + t) div (2*t); the
      `|| 0` turns the NaN of an empty list into 0. */
  function Progress(chapters: seq<Chapter>): (p: nat)
    ensures p <= 100
    // p is 100*c/t rounded to the nearest integer, halves rounded up
    ensures |chapters| > 0 ==>
              2 * |chapters| * p <= 200 * CompletedCount(chapters) + |chapters| < 2 * |chapters| * (p + 1)
    ensures |chapters| == 0 ==> p == 0
  {
    var t := |chapters|;
    if t == 0 then 0
    else
      var c := CompletedCount(chapters);
      var p := (200 * c + t) / (2 * t);
      DivBounds(200 * c + t, 2 * t);
      BoundBelow101(c, t, p);
      p
  }

  lemma DivBounds(a: nat, b: nat)
    requires b > 0
    ensures b * (a / b) <= a < b * (a / b + 1)
  {
  }

  lemma BoundBelow101(c: nat, t: nat, p: nat)
    requires 0 < t && c <= t
    requires 2 * t * p <= 200 * c + t
    ensures p <= 100
  {
    MulLeCancel(2 * t, 101, p);
  }

  /** No chapter completed: 0%. */
  lemma ProgressWhenNoneCompleted(chapters: seq<Chapter>)
    requires forall i :: 0 <= i < |chapters| ==> !chapters[i].isCompleted
    ensures Progress(chapters) == 0
  {
    var t := |chapters|;
    if t > 0 {
      assert CompletedCount(chapters) == 0;
      assert 2 * t * 1 > t;
    }
  }

  /** Every chapter of a non-empty list completed: 100%. */
  lemma ProgressWhenAllCompleted(chapters: seq<Chapter>)
    requires |chapters| > 0
    requires forall i :: 0 <= i < |chapters| ==> chapters[i].isCompleted
    ensures Progress(chapters) == 100
  {
    var t := |chapters|;
    assert CompletedCount(chapters) == t;
    DivUnique(200 * t + t, 2 * t, 100);
  }

  lemma DivUnique(a: nat, b: nat, q: nat)
    requires b > 0 && b * q <= a < b * (q + 1)
    ensures a / b == q
  {
    var r := a / b;
    DivBounds(a, b);
    MulLeCancel(b, q + 1, r);
    MulLeCancel(b, r + 1, q);
  }

  lemma MulLeCancel(b: int, x: int, y: int)
    requires b > 0
    ensures b * x <= b * y <==> x <= y
  {
    if x <= y {
      assert b * y - b * x == b * (y - x);
    } else {
      assert b * x - b * y == b * (x - y);
    }
  }

  /** Marking one chapter completed adds one to the count, unless it already was. */
  lemma {:induction false} CompletedCountAfterMark(chapters: seq<Chapter>, i: nat)
    requires i < |chapters|
    ensures CompletedCount(chapters[i := chapters[i].(isCompleted := true)])
            == CompletedCount(chapters) + (if chapters[i].isCompleted then 0 else 1)
  {
    var marked := chapters[i := chapters[i].(isCompleted := true)];
    if i > 0 {
      CompletedCountAfterMark(chapters[1..], i - 1);
      assert marked[1..] == chapters[1..][i - 1 := chapters[i].(isCompleted := true)];
    } else {
      assert marked[1..] == chapters[1..];
    }
  }

  /** Progress is monotone in the number of completed chapters. */
  lemma ProgressMonotoneInCount(c: nat, c': nat, t: nat)
    requires 0 < t && c <= c'
    ensures (200 * c + t) / (2 * t) <= (200 * c' + t) / (2 * t)
  {
    var q, q' := (200 * c + t) / (2 * t), (200 * c' + t) / (2 * t);
    DivBounds(200 * c + t, 2 * t);
    DivBounds(200 * c' + t, 2 * t);
    MulLeCancel(2 * t, q' + 1, q);
  }

  /** Completing one more chapter never lowers the displayed progress. */
  lemma ProgressNeverDropsOnCompletion(chapters: seq<Chapter>, i: nat)
    requires i < |chapters|
    ensures Progress(chapters[i := chapters[i].(isCompleted := true)]) >= Progress(chapters)
  {
    CompletedCountAfterMark(chapters, i);
    ProgressMonotoneInCount(CompletedCount(chapters), CompletedCount(chapters[i := chapters[i].(isCompleted := true)]), |chapters|);
  }

  /** Progress never drops when no chapter loses its completed mark. */
  lemma ProgressMonotone(before: seq<Chapter>, after: seq<Chapter>)
    requires |before| == |after|
    requires forall i :: 0 <= i < |before| ==> before[i].isCompleted ==> after[i].isCompleted
    ensures Progress(after) >= Progress(before)
  {
    CompletedCountMonotone(before, after);
    if |before| > 0 {
      ProgressMonotoneInCount(CompletedCount(before), CompletedCount(after), |before|);
    }
  }

  lemma {:induction false} CompletedCountMonotone(before: seq<Chapter>, after: seq<Chapter>)
    requires |before| == |after|
    requires forall i :: 0 <= i < |before| ==> before[i].isCompleted ==> after[i].isCompleted
    ensures CompletedCount(before) <= CompletedCount(after)
  {
    if before != [] {
      CompletedCountMonotone(before[1..], after[1..]);
    }
  }

  /** The active entries are exactly the chapters whose id is the current one;
      with no current chapter nothing is active. */
  lemma ActiveEntries(chapters: seq<Chapter>, currentChapterId: Option<int>)
    ensures forall i :: 0 <= i < |chapters| ==>
              (Entries(chapters, currentChapterId)[i].isActive <==> currentChapterId == Some(chapters[i].id))
    ensures currentChapterId.None? ==>
              forall i :: 0 <= i < |chapters| ==> !Entries(chapters, currentChapterId)[i].isActive
  {
  }

  /** Every entry is unlocked and its click selects that chapter's own id. */
  lemma EveryEntrySelectsItsChapter(chapters: seq<Chapter>, currentChapterId: Option<int>)
    ensures forall i :: 0 <= i < |chapters| ==>
              !Entries(chapters, currentChapterId)[i].isLocked
              && Entries(chapters, currentChapterId)[i].onSelect == Some(chapters[i].id)
  {
  }

  /** Completed chapters show the check mark; since nothing is locked, every other
      chapter shows the open circle and the lock never appears. */
  lemma EntryIcons(chapters: seq<Chapter>, currentChapterId: Option<int>)
    ensures forall i :: 0 <= i < |chapters| ==>
              Entries(chapters, currentChapterId)[i].icon == (if chapters[i].isCompleted then CheckIcon else CircleIcon)
  {
  }

  /** The "CHAPTER n" label is the position plus one, whatever the ids are. */
  lemma LabelsArePositions(chapters: seq<Chapter>, currentChapterId: Option<int>)
    ensures forall i :: 0 <= i < |chapters| ==> Entries(chapters, currentChapterId)[i].chapterNumber == i + 1
  {
  }

  /** With distinct ids at most one entry is active. */
  lemma AtMostOneActive(chapters: seq<Chapter>, currentChapterId: Option<int>)
    requires forall i, j :: 0 <= i < j < |chapters| ==> chapters[i].id != chapters[j].id
    ensures forall i, j :: 0 <= i < j < |chapters| ==>
              !(Entries(chapters, currentChapterId)[i].isActive && Entries(chapters, currentChapterId)[j].isActive)
  {
  }
}
