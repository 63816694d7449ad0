/** The study-note service: notes are private to their owner, reading one
    counts a view, deleting one only stamps `deletedAt`, and the list shows the
    owner's live notes, most recently updated first. Timestamps are integers
    passed in as `now`; a row's `updatedAt` is set by every update that
    changes it (the column's on-update default) and is empty before that. */
module StudyNotes {
  import opened Common

  datatype StudyNote = StudyNote(
    id: int,
    userId: int,
    title: string,
    contentHtml: string,
    contentText: Option<string>,
    tags: Option<seq<string>>,
    isPrivate: bool,
    createdAt: int,
    updatedAt: Option<int>,
    deletedAt: Option<int>,
    viewCount: int)

  /** The fields a client supplies when creating a note. */
  datatype NoteCreate = NoteCreate(
    title: string, contentHtml: string, contentText: Option<string>, tags: Option<seq<string>>, isPrivate: bool)

  /** The fields of an update; None means "not sent". */
  datatype NoteUpdate = NoteUpdate(
    title: Option<string>, contentHtml: Option<string>, contentText: Option<string>,
    tags: Option<seq<string>>, isPrivate: Option<bool>)

  predicate Owned(n: StudyNote, noteId: int, userId: int) {
    n.id == noteId && n.userId == userId
  }

  /** The lookup shared by update, get and delete: id and owner must match.
      Deleted notes are still found. */
  function FindOwned(notes: seq<StudyNote>, noteId: int, userId: int): Option<nat> {
    FindFirst(notes, (n: StudyNote) => Owned(n, noteId, userId))
  }

  /** `create`: stores every supplied field under the caller's id. */
  function Create(notes: seq<StudyNote>, nextId: int, userId: int, data: NoteCreate, now: int)
    : (r: (seq<StudyNote>, StudyNote))
    ensures r.0 == notes + [r.1]
    ensures r.1.userId == userId && r.1.id == nextId
    ensures NoteCreate(r.1.title, r.1.contentHtml, r.1.contentText, r.1.tags, r.1.isPrivate) == data
    ensures r.1.viewCount == 0 && r.1.deletedAt.None? && r.1.updatedAt.None? && r.1.createdAt == now
  {
    var n := StudyNote(nextId, userId, data.title, data.contentHtml, data.contentText, data.tags, data.isPrivate,
                       now, None, None, 0);
    (notes + [n], n)
  }

  /** The sent fields applied to a note. */
  function Apply(n: StudyNote, data: NoteUpdate): StudyNote {
    n.(title := if data.title.Some? then data.title.value else n.title,
       contentHtml := if data.contentHtml.Some? then data.contentHtml.value else n.contentHtml,
       contentText := if data.contentText.Some? then data.contentText else n.contentText,
       tags := if data.tags.Some? then data.tags else n.tags,
       isPrivate := if data.isPrivate.Some? then data.isPrivate.value else n.isPrivate)
  }

  /** Every field sent already holds the value sent, so the row is not dirty. */
  predicate SendsOnlyCurrent(n: StudyNote, data: NoteUpdate) {
    && (data.title.None? || data.title.value == n.title)
    && (data.contentHtml.None? || data.contentHtml.value == n.contentHtml)
    && (data.contentText.None? || data.contentText == n.contentText)
    && (data.tags.None? || data.tags == n.tags)
    && (data.isPrivate.None? || data.isPrivate.value == n.isPrivate)
  }

  /** A flush of a changed row stamps `updatedAt`; an unchanged row is not
      written. */
  function Stamp(before: StudyNote, after: StudyNote, now: int): StudyNote {
    if after == before then before else after.(updatedAt := Some(now))
  }

  /** `update`: only the owner's note changes; otherwise None and nothing
      changes. */
  function Update(notes: seq<StudyNote>, noteId: int, userId: int, data: NoteUpdate, now: int)
    : (r: (seq<StudyNote>, Option<StudyNote>))
    ensures r.1.None? <==> FindOwned(notes, noteId, userId).None?
    ensures r.1.None? ==> r.0 == notes
    ensures r.1.Some? ==>
      var k := FindOwned(notes, noteId, userId).value;
      && |r.0| == |notes| && r.0[k] == r.1.value
      && (forall j :: 0 <= j < |notes| && j != k ==> r.0[j] == notes[j])
      && r.1.value.id == noteId && r.1.value.userId == userId
      && (data.title.Some? ==> r.1.value.title == data.title.value)
      && (data.title.None? ==> r.1.value.title == notes[k].title)
      && (data.contentHtml.Some? ==> r.1.value.contentHtml == data.contentHtml.value)
      && (data.contentHtml.None? ==> r.1.value.contentHtml == notes[k].contentHtml)
      && (data.contentText.Some? ==> r.1.value.contentText == data.contentText)
      && (data.contentText.None? ==> r.1.value.contentText == notes[k].contentText)
      && (data.tags.Some? ==> r.1.value.tags == data.tags)
      && (data.tags.None? ==> r.1.value.tags == notes[k].tags)
      && (data.isPrivate.Some? ==> r.1.value.isPrivate == data.isPrivate.value)
      && (data.isPrivate.None? ==> r.1.value.isPrivate == notes[k].isPrivate)
      && r.1.value.createdAt == notes[k].createdAt
      && r.1.value.viewCount == notes[k].viewCount && r.1.value.deletedAt == notes[k].deletedAt
      && (r.1.value != notes[k] ==> r.1.value.updatedAt == Some(now))
      && (SendsOnlyCurrent(notes[k], data) ==> r.1.value == notes[k])
  {
    match FindOwned(notes, noteId, userId)
    case None => (notes, None)
    case Some(k) =>
      var n := Stamp(notes[k], Apply(notes[k], data), now);
      (notes[k := n], Some(n))
  }

  /** `get` corrected, with the view counter it is written against: the
      owner's note, with one more view. As written the note has no such
      counter and the owner's read fails (see `GetAsWritten`). */
  function Get(notes: seq<StudyNote>, noteId: int, userId: int, now: int): (r: (seq<StudyNote>, Option<StudyNote>))
    ensures r.1.None? <==> FindOwned(notes, noteId, userId).None?
    ensures r.1.None? ==> r.0 == notes
    ensures r.1.Some? ==>
      var k := FindOwned(notes, noteId, userId).value;
      && |r.0| == |notes| && r.0[k] == r.1.value
      && (forall j :: 0 <= j < |notes| && j != k ==> r.0[j] == notes[j])
      && r.1.value.viewCount == notes[k].viewCount + 1
      && r.1.value == notes[k].(viewCount := notes[k].viewCount + 1, updatedAt := Some(now))
  {
    match FindOwned(notes, noteId, userId)
    case None => (notes, None)
    case Some(k) =>
      var n := notes[k].(viewCount := notes[k].viewCount + 1, updatedAt := Some(now));
      (notes[k := n], Some(n))
  }

  /** `soft_delete` corrected: goes through the corrected `get`, so the view
      counter moves too, then stamps the deletion. A note that is already
      deleted is found and stamped again. As written it fails with `get`
      (see `SoftDeleteAsWritten`). */
  function SoftDelete(notes: seq<StudyNote>, noteId: int, userId: int, now: int): (r: (seq<StudyNote>, bool))
    ensures !r.1 <==> FindOwned(notes, noteId, userId).None?
    ensures !r.1 ==> r.0 == notes
    ensures r.1 ==>
      var k := FindOwned(notes, noteId, userId).value;
      && |r.0| == |notes|
      && r.0[k].deletedAt == Some(now) && r.0[k].viewCount == notes[k].viewCount + 1
      && (forall j :: 0 <= j < |notes| && j != k ==> r.0[j] == notes[j])
  {
    var (notes', found) := Get(notes, noteId, userId, now);
    match found
    case None => (notes', false)
    case Some(n) =>
      var k := FindOwned(notes, noteId, userId).value;
      (notes'[k := n.(deletedAt := Some(now))], true)
  }

  /** Nothing of another user's note can be read, changed or deleted, and the
      table is left as it was. Stated of the corrected `Get` and `SoftDelete`. */
  lemma OthersNotesUntouched(notes: seq<StudyNote>, noteId: int, owner: int, caller: int, data: NoteUpdate, now: int)
    requires caller != owner
    requires forall j :: 0 <= j < |notes| && notes[j].id == noteId ==> notes[j].userId == owner
    ensures Get(notes, noteId, caller, now) == (notes, None)
    ensures Update(notes, noteId, caller, data, now) == (notes, None)
    ensures SoftDelete(notes, noteId, caller, now) == (notes, false)
  {
  }

  /** A deleted note can still be fetched by its owner: the delete counted
      one view and the read counts another. Stated of the corrected `Get` and
      `SoftDelete`; as written, both raise on a note the owner holds. */
  lemma DeletedNoteStillReadable(notes: seq<StudyNote>, noteId: int, userId: int, now: int, later: int)
    requires FindOwned(notes, noteId, userId).Some?
    ensures var (notes', _) := SoftDelete(notes, noteId, userId, now);
      var k := FindOwned(notes, noteId, userId).value;
      var read := Get(notes', noteId, userId, later).1;
      read.Some? && read.value.deletedAt == Some(now) && read.value.viewCount == notes[k].viewCount + 2
  {
    var (notes', _) := SoftDelete(notes, noteId, userId, now);
    FindFirstSameVerdicts(notes, notes', (n: StudyNote) => Owned(n, noteId, userId));
  }

  // ---------------------------------------------------------------------------
  // `get` as written

  /** The mapped note class declares no view counter, so reading
      `note.view_count` raises AttributeError: as written, `get` of a note the
      caller owns fails with a server error and changes nothing, and only a
      missing note gets through (as None). */
  function GetAsWritten(notes: seq<StudyNote>, noteId: int, userId: int): (r: Result<Option<StudyNote>>)
    ensures r.Ok? <==> FindOwned(notes, noteId, userId).None?
    ensures r.Ok? ==> r.value.None?
  {
    match FindOwned(notes, noteId, userId)
    case None => Ok(None)
    case Some(_) => Err(InternalError)
  }

  /** `soft_delete` as written inherits the failure: it can only answer
      "not found" or fail. */
  function SoftDeleteAsWritten(notes: seq<StudyNote>, noteId: int, userId: int): (r: Result<bool>)
    ensures r.Ok? ==> !r.value
  {
    match GetAsWritten(notes, noteId, userId)
    case Err(e) => Err(e)
    case Ok(found) => Ok(found.Some?)
  }

  /** The concrete failure: the owner of note 1 cannot read or delete it,
      while the corrected service counts the view. */
  lemma OwnerCannotReadAsWritten()
    ensures var n := StudyNote(1, 7, "t", "<p>x</p>", None, None, true, 0, None, None, 0);
      && GetAsWritten([n], 1, 7) == Err(InternalError)
      && SoftDeleteAsWritten([n], 1, 7) == Err(InternalError)
      && Get([n], 1, 7, 5).1 == Some(n.(viewCount := 1, updatedAt := Some(5)))
  {
  }

  // ---------------------------------------------------------------------------
  // The list, newest first

  /** Whether `a` may be listed before `b` under `ORDER BY updated_at DESC,
      created_at DESC`: MySQL sorts NULL below every value, so notes never
      updated come last. */
  predicate UpdatedLater(x: Option<int>, y: Option<int>) {
    x.Some? && (y.None? || x.value > y.value)
  }

  predicate Before(a: StudyNote, b: StudyNote) {
    UpdatedLater(a.updatedAt, b.updatedAt) || (a.updatedAt == b.updatedAt && a.createdAt >= b.createdAt)
  }

  lemma BeforeTotal(a: StudyNote, b: StudyNote)
    ensures Before(a, b) || Before(b, a)
  {
  }

  predicate NewestFirst(s: seq<StudyNote>) {
    forall i, j :: 0 <= i < j < |s| ==> Before(s[i], s[j])
  }

  /** Places `n` in front of the first note it may precede. */
  function InsertNote(n: StudyNote, s: seq<StudyNote>): (r: seq<StudyNote>)
    requires NewestFirst(s)
    ensures NewestFirst(r)
    ensures multiset(r) == multiset(s) + multiset{n}
    ensures |r| == |s| + 1
    decreases |s|
  {
    if |s| == 0 || Before(n, s[0]) then
      BeforeAllOf(n, s);
      ConsNewestFirst(n, s);
      [n] + s
    else
      assert s == [s[0]] + s[1..];
      NewestFirstTail(s);
      var rest := InsertNote(n, s[1..]);
      HeadBeforeInserted(s[0], n, s[1..], rest);
      ConsNewestFirst(s[0], rest);
      [s[0]] + rest
  }

  /** A note that may precede the head of a newest-first list may precede
      all of it. */
  lemma BeforeAllOf(n: StudyNote, s: seq<StudyNote>)
    requires NewestFirst(s)
    requires |s| > 0 ==> Before(n, s[0])
    ensures forall k :: 0 <= k < |s| ==> Before(n, s[k])
  {
    forall k | 0 <= k < |s|
      ensures Before(n, s[k])
    {
      BeforeTrans(n, s[0], s[k]);
    }
  }

  /** The head of a newest-first list still precedes the rest once a note it
      does not follow is inserted there. */
  lemma HeadBeforeInserted(h: StudyNote, n: StudyNote, tail: seq<StudyNote>, rest: seq<StudyNote>)
    requires !Before(n, h)
    requires forall k :: 0 <= k < |tail| ==> Before(h, tail[k])
    requires multiset(rest) == multiset(tail) + multiset{n}
    ensures forall k :: 0 <= k < |rest| ==> Before(h, rest[k])
  {
    forall k | 0 <= k < |rest|
      ensures Before(h, rest[k])
    {
      assert rest[k] in multiset(rest);
      if rest[k] == n {
        BeforeTotal(n, h);
      } else {
        assert rest[k] in multiset(tail);
        var i :| 0 <= i < |tail| && tail[i] == rest[k];
      }
    }
  }

  lemma NewestFirstTail(s: seq<StudyNote>)
    requires NewestFirst(s) && |s| > 0
    ensures NewestFirst(s[1..])
  {
    forall i, j | 0 <= i < j < |s| - 1
      ensures Before(s[1..][i], s[1..][j])
    {
      assert s[1..][i] == s[i + 1] && s[1..][j] == s[j + 1];
    }
  }

  /** A note that may precede every note of a sorted list may head it. */
  lemma ConsNewestFirst(x: StudyNote, s: seq<StudyNote>)
    requires NewestFirst(s)
    requires forall k :: 0 <= k < |s| ==> Before(x, s[k])
    ensures NewestFirst([x] + s)
  {
    var t := [x] + s;
    forall i, j | 0 <= i < j < |t|
      ensures Before(t[i], t[j])
    {
      assert t[j] == s[j - 1];
      if i > 0 {
        assert t[i] == s[i - 1];
      }
    }
  }

  lemma BeforeTrans(a: StudyNote, b: StudyNote, c: StudyNote)
    requires Before(a, b) && Before(b, c)
    ensures Before(a, c)
  {
  }

  /** An insertion sort from the back: ties keep their table order, which is
      one of the orders the database may return. */
  function SortNewestFirst(s: seq<StudyNote>): (r: seq<StudyNote>)
    ensures NewestFirst(r)
    ensures multiset(r) == multiset(s)
    decreases |s|
  {
    if |s| == 0 then []
    else
      assert s == [s[0]] + s[1..];
      InsertNote(s[0], SortNewestFirst(s[1..]))
  }

  predicate Listed(n: StudyNote, userId: int) {
    n.userId == userId && n.deletedAt.None?
  }

  /** `list`: the caller's notes that are not deleted, newest first, one page. */
  function List(notes: seq<StudyNote>, userId: int, skip: nat, limit: nat): (r: seq<StudyNote>)
    ensures |r| <= limit
    ensures forall n :: n in r ==> n in notes && Listed(n, userId)
    ensures NewestFirst(r)
  {
    var mine := Filter(notes, (n: StudyNote) => Listed(n, userId));
    var sorted := SortNewestFirst(mine);
    var r := Page(sorted, skip, limit);
    forall n | n in r
      ensures n in notes && Listed(n, userId)
    {
      assert n in sorted;
      assert n in multiset(sorted);
    }
    r
  }

  /** A first page large enough to hold them shows every live note of the
      caller, each exactly as often as it is stored. */
  lemma ListComplete(notes: seq<StudyNote>, userId: int, limit: nat)
    requires limit >= |notes|
    ensures multiset(List(notes, userId, 0, limit)) == multiset(Filter(notes, (n: StudyNote) => Listed(n, userId)))
  {
    var mine := Filter(notes, (n: StudyNote) => Listed(n, userId));
    var sorted := SortNewestFirst(mine);
    assert |sorted| == |mine|;
    assert Page(sorted, 0, limit) == sorted;
  }

  /** Consecutive pages of the owner's list adjoin, as for the exercise
      listing: no note is skipped or shown twice between pages. */
  lemma ListPagesAdjoin(notes: seq<StudyNote>, userId: int, skip: nat, a: nat, b: nat)
    ensures List(notes, userId, skip, a) + List(notes, userId, skip + a, b) == List(notes, userId, skip, a + b)
  {
    PagesAdjoin(SortNewestFirst(Filter(notes, (n: StudyNote) => Listed(n, userId))), skip, a, b);
  }

  /** After a soft delete the note leaves the owner's list. Stated of the
      corrected `SoftDelete`. */
  lemma DeletedNotListed(notes: seq<StudyNote>, noteId: int, userId: int, now: int, skip: nat, limit: nat)
    requires forall i, j :: 0 <= i < j < |notes| ==> notes[i].id != notes[j].id
    ensures var (notes', _) := SoftDelete(notes, noteId, userId, now);
      forall n :: n in List(notes', userId, skip, limit) ==> n.id != noteId
  {
    var (notes', ok) := SoftDelete(notes, noteId, userId, now);
    forall n | n in List(notes', userId, skip, limit)
      ensures n.id != noteId
    {
      var i :| 0 <= i < |notes'| && notes'[i] == n;
      if ok {
        var k := FindOwned(notes, noteId, userId).value;
        if i != k {
          assert notes[i].id != notes[k].id;
        }
      }
    }
  }
}
