/**
 * The notes service: creating, updating, listing, reading and deleting notes
 * in a note repository, guarded by ownership. Every targeted operation checks
 * first that the note exists (not found) and then that the caller owns it
 * (forbidden).
 *
 * Ids are opaque strings compared as the services compare hex strings; the
 * caller's id, fresh note ids and the clock are parameters.
 */
module Notes {
  import opened Shared

  /** A note's ObjectId, as its hex string. */
  type NoteId = string

  datatype Note = Note(id: NoteId, ownerId: UserId, title: string, description: string, createdAt: Instant)

  /** The request body of create and update; only update reads its id. */
  datatype NoteRequest = NoteRequest(id: Option<NoteId>, title: string, description: string)

  /** What the service returns of a note: everything but the owner. */
  datatype NoteResponse = NoteResponse(id: NoteId, title: string, description: string, createdAt: Instant)

  /** The response built from a saved note: its id, title, description and creation time, not its owner. */
  function ToResponse(n: Note): (r: NoteResponse)
    ensures r.id == n.id && r.title == n.title && r.description == n.description && r.createdAt == n.createdAt
  {
    NoteResponse(n.id, n.title, n.description, n.createdAt)
  }

  /** A response determines every field of the note except its owner. */
  lemma ResponseOmitsOnlyOwner(n: Note, m: Note)
    ensures ToResponse(n) == ToResponse(m) <==> n.(ownerId := m.ownerId) == m
  {
  }

  const MissingIdMessage := "Note ID is required for update"

  function NotFoundMessage(noteId: NoteId): string {
    "Note not found with id: " + noteId
  }

  /** The forbidden message, naming the attempted action ("update", "delete" or "view"). */
  function ForbiddenMessage(action: string): string {
    "You don't have permission to " + action + " this note"
  }

  /** The repository is keyed by id: no two stored notes share one. */
  ghost predicate UniqueIds(notes: seq<Note>) {
    forall i, j :: 0 <= i < j < |notes| ==> notes[i].id != notes[j].id
  }

  /** Under unique ids, the note stored at index `i` is the only stored note with its id. */
  lemma UniqueIdsPin(notes: seq<Note>, i: nat, n: Note)
    requires UniqueIds(notes) && i < |notes|
    requires n in notes && n.id == notes[i].id
    ensures n == notes[i]
  {
    var j :| 0 <= j < |notes| && notes[j] == n;
    assert !(j < i) && !(i < j);
  }

  /** findById: where the note with that id is stored, if anywhere. */
  function IndexOf(notes: seq<Note>, id: NoteId): (r: Option<nat>)
    ensures r.Some? ==> r.value < |notes| && notes[r.value].id == id
    ensures r.None? ==> forall n :: n in notes ==> n.id != id
  {
    if notes == [] then None
    else if notes[0].id == id then Some(0)
    else match IndexOf(notes[1..], id)
      case None => None
      case Some(k) => Some(k + 1)
  }

  /**
   * The ownership guard shared by update, delete and read: an absent id is
   * not found; a note owned by someone else is forbidden; otherwise the
   * index of the caller's note.
   */
  function Guard(notes: seq<Note>, noteId: NoteId, principal: UserId, action: string): (r: Result<nat>)
    requires UniqueIds(notes)
    ensures (forall n :: n in notes ==> n.id != noteId) ==>
              r == Err(ResourceNotFoundException(NotFoundMessage(noteId)))
    ensures forall n :: n in notes && n.id == noteId && n.ownerId != principal ==>
              r == Err(ForbiddenException(ForbiddenMessage(action)))
    ensures forall n :: n in notes && n.id == noteId && n.ownerId == principal ==>
              r.Ok? && r.value < |notes| && notes[r.value] == n
    ensures r.Ok? ==> r.value < |notes| && notes[r.value].id == noteId && notes[r.value].ownerId == principal
  {
    match IndexOf(notes, noteId)
    case None => Err(ResourceNotFoundException(NotFoundMessage(noteId)))
    case Some(i) =>
      assert forall n :: n in notes && n.id == noteId ==> n == notes[i] by {
        forall n | n in notes && n.id == noteId ensures n == notes[i] {
          UniqueIdsPin(notes, i, n);
        }
      }
      if notes[i].ownerId != principal then Err(ForbiddenException(ForbiddenMessage(action)))
      else Ok(i)
  }

  /**
   * findByOwnerId mapped to responses: one response per note of `owner`, in
   * repository order; nothing of anybody else's.
   */
  function OwnedResponses(notes: seq<Note>, owner: UserId): (r: seq<NoteResponse>)
    ensures |r| <= |notes|
    ensures forall resp :: resp in r ==> exists n :: n in notes && n.ownerId == owner && resp == ToResponse(n)
    ensures forall n :: n in notes && n.ownerId == owner ==> ToResponse(n) in r
  {
    if notes == [] then []
    else
      var rest := OwnedResponses(notes[1..], owner);
      assert forall n :: n in notes[1..] ==> n in notes;
      if notes[0].ownerId == owner then [ToResponse(notes[0])] + rest else rest
  }

  /** The listing keeps repository order: listing two runs of notes is listing each in turn. */
  lemma {:induction false} OwnedResponsesAppend(a: seq<Note>, b: seq<Note>, owner: UserId)
    ensures OwnedResponses(a + b, owner) == OwnedResponses(a, owner) + OwnedResponses(b, owner)
  {
    if a == [] {
      assert a + b == b;
    } else {
      assert (a + b)[0] == a[0];
      assert (a + b)[1..] == a[1..] + b;
      OwnedResponsesAppend(a[1..], b, owner);
    }
  }

  /** deleteById: every stored note with that id goes; every other note stays, in order. */
  function RemoveId(notes: seq<Note>, id: NoteId): (r: seq<Note>)
    ensures forall n :: n in r <==> n in notes && n.id != id
  {
    if notes == [] then []
    else if notes[0].id == id then RemoveId(notes[1..], id)
    else [notes[0]] + RemoveId(notes[1..], id)
  }

  /** Taking one note out of a repository with unique ids leaves the ids unique. */
  lemma UniqueIdsWithout(notes: seq<Note>, i: nat)
    requires UniqueIds(notes) && i < |notes|
    ensures UniqueIds(notes[..i] + notes[i + 1..])
  {
    var r := notes[..i] + notes[i + 1..];
    forall a, b | 0 <= a < b < |r| ensures r[a].id != r[b].id {
      var a' := if a < i then a else a + 1;
      var b' := if b < i then b else b + 1;
      assert r[a] == notes[a'] && r[b] == notes[b'];
    }
  }

  /** Deleting an id nobody has changes nothing. */
  lemma {:induction false} RemoveAbsentId(notes: seq<Note>, id: NoteId)
    requires forall n :: n in notes ==> n.id != id
    ensures RemoveId(notes, id) == notes
  {
    if notes != [] {
      assert notes[0] in notes;
      RemoveAbsentId(notes[1..], id);
    }
  }

  /** Ids stay unique once the first stored note is set aside. */
  lemma UniqueIdsTail(notes: seq<Note>)
    requires UniqueIds(notes) && notes != []
    ensures UniqueIds(notes[1..])
    ensures forall n :: n in notes[1..] ==> n.id != notes[0].id
  {
    var tail := notes[1..];
    forall a, b | 0 <= a < b < |tail| ensures tail[a].id != tail[b].id {
      assert tail[a] == notes[a + 1] && tail[b] == notes[b + 1];
    }
    forall n | n in tail ensures n.id != notes[0].id {
      var j :| 0 <= j < |tail| && tail[j] == n;
      assert notes[j + 1] == n;
    }
  }

  /** Under unique ids, deleting the id stored at index `i` removes exactly that one note. */
  lemma {:induction false} RemoveIdAt(notes: seq<Note>, id: NoteId, i: nat)
    requires UniqueIds(notes) && i < |notes| && notes[i].id == id
    ensures RemoveId(notes, id) == notes[..i] + notes[i + 1..]
    ensures |RemoveId(notes, id)| == |notes| - 1
  {
    var tail := notes[1..];
    if i == 0 {
      assert RemoveId(tail, id) == tail by {
        UniqueIdsTail(notes);
        RemoveAbsentId(tail, id);
      }
      assert notes[..0] + notes[1..] == tail;
    } else {
      var x := notes[0];
      assert x.id != id by {
        assert notes[0].id != notes[i].id;
      }
      assert RemoveId(tail, id) == tail[..i - 1] + tail[i..] by {
        UniqueIdsTail(notes);
        RemoveIdAt(tail, id, i - 1);
      }
      calc {
        RemoveId(notes, id);
        [x] + RemoveId(tail, id);
        [x] + (tail[..i - 1] + tail[i..]);
        ([x] + tail[..i - 1]) + tail[i..];
        { assert [x] + tail[..i - 1] == notes[..i]; }
        notes[..i] + tail[i..];
        { assert tail[i..] == notes[i + 1..]; }
        notes[..i] + notes[i + 1..];
      }
    }
  }

  class NoteService {
    /** The note repository's documents, in repository order. */
    var notes: seq<Note>

    ghost predicate Valid()
      reads this
    {
      UniqueIds(notes)
    }

    constructor (notes: seq<Note>)
      requires UniqueIds(notes)
      ensures Valid() && this.notes == notes
    {
      this.notes := notes;
    }

    /**
     * createNote: exactly one note is added, owned by the caller, with the
     * request's title and description (its id is ignored); the response
     * repeats the saved note.
     */
    method CreateNote(request: NoteRequest, ownerId: UserId, newId: NoteId, now: Instant) returns (r: NoteResponse)
      requires Valid()
      requires forall n :: n in notes ==> n.id != newId  // ObjectId.get() yields an unused id
      modifies this
      ensures Valid()
      ensures notes == old(notes) + [Note(newId, ownerId, request.title, request.description, now)]
      ensures r == NoteResponse(newId, request.title, request.description, now)
    {
      var note := Note(newId, ownerId, request.title, request.description, now);
      notes := notes + [note];
      assert forall i :: 0 <= i < |old(notes)| ==> old(notes)[i] in old(notes);
      r := ToResponse(note);
    }

    /**
     * updateNote: a request without an id is not found before any lookup;
     * then the guard decides; failures change nothing. On success only the
     * title and description of that one note change.
     */
    method UpdateNote(request: NoteRequest, ownerId: UserId) returns (r: Result<NoteResponse>)
      requires Valid()
      modifies this
      ensures Valid()
      ensures request.id.None? ==> r == Err(ResourceNotFoundException(MissingIdMessage))
      ensures request.id.Some? && Guard(old(notes), request.id.value, ownerId, "update").Err? ==>
                r == Err(Guard(old(notes), request.id.value, ownerId, "update").error)
      ensures r.Ok? <==> request.id.Some? && Guard(old(notes), request.id.value, ownerId, "update").Ok?
      ensures r.Err? ==> notes == old(notes)
      ensures r.Ok? ==>
                && request.id.Some?
                && Guard(old(notes), request.id.value, ownerId, "update").Ok?
                && |notes| == |old(notes)|
                && (forall k :: 0 <= k < |notes| ==>
                      notes[k] == if old(notes)[k].id == request.id.value
                                  then old(notes)[k].(title := request.title, description := request.description)
                                  else old(notes)[k])
                && r.value == ToResponse(notes[Guard(old(notes), request.id.value, ownerId, "update").value])
    {
      if request.id.None? {
        return Err(ResourceNotFoundException(MissingIdMessage));
      }
      var noteId := request.id.value;
      var guard := Guard(notes, noteId, ownerId, "update");
      if guard.Err? {
        return Err(guard.error);
      }
      var i := guard.value;
      var updated := notes[i].(title := request.title, description := request.description);
      notes := notes[i := updated];
      r := Ok(ToResponse(updated));
    }

    /** findNotesByOwnerId: the caller's notes as responses, in repository order. */
    function FindNotesByOwnerId(ownerId: UserId): (r: seq<NoteResponse>)
      reads this
      ensures forall n :: n in notes && n.ownerId == ownerId ==> ToResponse(n) in r
      ensures forall resp :: resp in r ==> exists n :: n in notes && n.ownerId == ownerId && resp == ToResponse(n)
    {
      OwnedResponses(notes, ownerId)
    }

    /**
     * deleteNote: after the guard, exactly the note with that id is removed
     * and the others stay in order; failures change nothing.
     */
    method DeleteNote(noteId: NoteId, ownerId: UserId) returns (r: Result<()>)
      requires Valid()
      modifies this
      ensures Valid()
      ensures r.Err? <==> Guard(old(notes), noteId, ownerId, "delete").Err?
      ensures r.Err? ==> r.error == Guard(old(notes), noteId, ownerId, "delete").error && notes == old(notes)
      ensures r.Ok? ==>
                var i := Guard(old(notes), noteId, ownerId, "delete").value;
                notes == old(notes)[..i] + old(notes)[i + 1..]
      ensures r.Ok? ==> |notes| == |old(notes)| - 1
                        && forall n :: n in notes <==> n in old(notes) && n.id != noteId
    {
      var guard := Guard(notes, noteId, ownerId, "delete");
      if guard.Err? {
        return Err(guard.error);
      }
      RemoveIdAt(notes, noteId, guard.value);
      UniqueIdsWithout(notes, guard.value);
      notes := RemoveId(notes, noteId);
      r := Ok(());
    }

    /** findNoteById: read-only; the guard decides, and success returns the stored note's fields. */
    function FindNoteById(noteId: NoteId, ownerId: UserId): (r: Result<NoteResponse>)
      reads this
      requires Valid()
      ensures (forall n :: n in notes ==> n.id != noteId) ==>
                r == Err(ResourceNotFoundException(NotFoundMessage(noteId)))
      ensures forall n :: n in notes && n.id == noteId && n.ownerId != ownerId ==>
                r == Err(ForbiddenException(ForbiddenMessage("view")))
      ensures forall n :: n in notes && n.id == noteId && n.ownerId == ownerId ==>
                r == Ok(ToResponse(n))
    {
      match Guard(notes, noteId, ownerId, "view")
      case Err(e) => Err(e)
      case Ok(i) => Ok(ToResponse(notes[i]))
    }
  }
}
