/** The note entity of the current application and the request shapes its
    routes accept: a row of the `notes` table, the create request with its
    declared defaults, and the partial-update request, whose fields are
    applied one `setattr` at a time. */
module Models {
  import opened Outcomes
  import Forest

  /** A row of the `notes` table. `content` and `cover_image` are nullable
      columns, `parent_id` is a nullable reference to another row and
      `owner_id` a nullable reference to a user. The timestamps are not
      modelled. */
  datatype Note = Note(
    id: int,
    title: string,
    content: Option<string>,
    isFolder: bool,
    parentId: Option<int>,
    coverImage: Option<string>,
    ownerId: Option<int>)

  /** The body of a create request (`NoteCreate`). */
  datatype NoteCreate = NoteCreate(
    title: string,
    content: Option<string>,
    isFolder: bool,
    parentId: Option<int>,
    coverImage: Option<string>)

  /** The create request a client sends with nothing but a title: every other
      field takes the default `NoteBase` declares. */
  function CreateWithDefaults(title: string): NoteCreate
  {
    NoteCreate(title, Some(""), false, None, None)
  }

  /** The row inserted for a create request: the request's fields, the id the
      store assigns and the caller as owner. A null content is left out of
      the insert, so the column default `""` is stored instead. */
  function NewRow(id: int, req: NoteCreate, owner: int): Note
  {
    var content := if req.content.None? then Some("") else req.content;
    Note(id, req.title, content, req.isFolder, req.parentId, req.coverImage, Some(owner))
  }

  /** The body of an update request (`NoteUpdate`). Every field may be left
      out, and the optional ones may also be sent as an explicit null; there
      is no field for the folder flag. */
  datatype NoteUpdate = NoteUpdate(
    title: Field<string>,
    content: Field<Option<string>>,
    parentId: Field<Option<int>>,
    coverImage: Field<Option<string>>)

  /** One `setattr(db_note, key, value)` of the update loop. */
  datatype Assignment =
    | SetTitle(title: string)
    | SetContent(content: Option<string>)
    | SetParent(parentId: Option<int>)
    | SetCover(coverImage: Option<string>)

  /** `model_dump(exclude_unset=True)`: one assignment per field the client
      sent, in the order the fields are declared. */
  function UpdateData(u: NoteUpdate): seq<Assignment>
  {
    (if u.title.Set? then [SetTitle(u.title.value)] else [])
    + (if u.content.Set? then [SetContent(u.content.value)] else [])
    + (if u.parentId.Set? then [SetParent(u.parentId.value)] else [])
    + (if u.coverImage.Set? then [SetCover(u.coverImage.value)] else [])
  }

  function Assign(n: Note, a: Assignment): Note
  {
    match a
    case SetTitle(t) => n.(title := t)
    case SetContent(c) => n.(content := c)
    case SetParent(p) => n.(parentId := p)
    case SetCover(v) => n.(coverImage := v)
  }

  /** The assignments of `s` applied to `n` from first to last. */
  function AssignAll(n: Note, s: seq<Assignment>): Note
    decreases |s|
  {
    if s == [] then n else Assign(AssignAll(n, s[..|s| - 1]), s[|s| - 1])
  }

  /** The update loop: `setattr` for each sent field, in order. */
  method SetAttributes(n: Note, data: seq<Assignment>) returns (m: Note)
    ensures m == AssignAll(n, data)
  {
    m := n;
    var i := 0;
    while i < |data|
      invariant 0 <= i <= |data|
      invariant m == AssignAll(n, data[..i])
    {
      assert data[..i + 1][..i] == data[..i];
      m := Assign(m, data[i]);
      i := i + 1;
    }
    assert data[..|data|] == data;
  }

  /** What a partial update means: every field the client sent takes the
      sent value, every other field keeps its old value. */
  function Patched(n: Note, u: NoteUpdate): Note
  {
    n.(title := if u.title.Set? then u.title.value else n.title,
       content := if u.content.Set? then u.content.value else n.content,
       parentId := if u.parentId.Set? then u.parentId.value else n.parentId,
       coverImage := if u.coverImage.Set? then u.coverImage.value else n.coverImage)
  }

  /** Applying two runs of assignments one after the other. */
  lemma {:induction false} AssignAllConcat(n: Note, s: seq<Assignment>, t: seq<Assignment>)
    ensures AssignAll(n, s + t) == AssignAll(AssignAll(n, s), t)
    decreases |t|
  {
    if t == [] {
      assert s + t == s;
    } else {
      assert (s + t)[..|s + t| - 1] == s + t[..|t| - 1];
      AssignAllConcat(n, s, t[..|t| - 1]);
    }
  }

  /** The update loop over the sent fields yields exactly the patched note. */
  lemma UpdateLoopIsPatch(n: Note, u: NoteUpdate)
    ensures AssignAll(n, UpdateData(u)) == Patched(n, u)
  {
    var t := if u.title.Set? then [SetTitle(u.title.value)] else [];
    var c := if u.content.Set? then [SetContent(u.content.value)] else [];
    var p := if u.parentId.Set? then [SetParent(u.parentId.value)] else [];
    var v := if u.coverImage.Set? then [SetCover(u.coverImage.value)] else [];
    assert UpdateData(u) == t + c + p + v;
    AssignAllConcat(n, t + c + p, v);
    AssignAllConcat(n, t + c, p);
    AssignAllConcat(n, t, c);
    assert t != [] ==> t[..0] == [];
    assert c != [] ==> c[..0] == [];
    assert p != [] ==> p[..0] == [];
    assert v != [] ==> v[..0] == [];
  }

  /** No run of assignments changes a note's id, folder flag or owner: the
      request has no field for them. */
  lemma {:induction false} AssignKeepsIdentity(n: Note, s: seq<Assignment>)
    ensures AssignAll(n, s).id == n.id
    ensures AssignAll(n, s).isFolder == n.isFolder
    ensures AssignAll(n, s).ownerId == n.ownerId
    decreases |s|
  {
    if s != [] {
      AssignKeepsIdentity(n, s[..|s| - 1]);
    }
  }

  /** The parent links and folder flags of the notes table. The ensures
      repeat the comprehension on purpose: they hand the verifier the
      pointwise facts the recursive deletes need to stay within resources. */
  function Links(notes: map<int, Note>): (t: Forest.Table)
    ensures t.Keys == notes.Keys
    ensures forall k :: k in t ==> t[k] == Forest.Link(notes[k].parentId, notes[k].isFolder)
  {
    map k | k in notes :: Forest.Link(notes[k].parentId, notes[k].isFolder)
  }

  /** Deleting rows deletes their links. */
  lemma LinksMinus(notes: map<int, Note>, s: set<int>)
    ensures Links(notes - s) == Links(notes) - s
  {
  }
}
