/** The two tables of backend/db.js as values: rows, the schema facts the
    handlers rely on (`email` UNIQUE, item `name` NOT NULL, AUTO_INCREMENT
    ids), the public path of an uploaded file, and `ORDER BY id DESC`. */
module Tables {
  import opened Js
  import opened Passwords

  /** A `users` row (its `created_at` timestamp is not modelled). */
  datatype User = User(name: string, email: string, password: PasswordHash, profileImage: Option<string>)

  /** An `items` row; `name` is NOT NULL, so it is a plain string. */
  datatype Item = Item(name: string, image: Option<string>)

  /** What `SELECT id, name, email, profile_image ...` returns: the password
      column is not selected. */
  datatype UserView = UserView(id: int, name: string, email: string, profileImage: Option<string>)

  /** A row of `SELECT * FROM items`. */
  datatype ItemRow = ItemRow(id: int, name: string, image: Option<string>)

  function View(id: int, u: User): UserView
  {
    UserView(id, u.name, u.email, u.profileImage)
  }

  function RowOf(id: int, item: Item): ItemRow
  {
    ItemRow(id, item.name, item.image)
  }

  /** The UNIQUE constraint on `users.email`. */
  ghost predicate EmailsUnique(users: map<int, User>)
  {
    forall a, b :: a in users && b in users && users[a].email == users[b].email ==> a == b
  }

  /** `SELECT id FROM users WHERE email = ?` finds a row. */
  predicate EmailInUse(users: map<int, User>, email: string)
  {
    exists id :: id in users && users[id].email == email
  }

  /** Giving row `id` this email would violate the UNIQUE constraint. */
  predicate EmailTakenByOther(users: map<int, User>, id: int, email: string)
  {
    exists other :: other in users && other != id && users[other].email == email
  }

  /** Inserting a row whose email is not in use keeps emails unique. */
  lemma InsertKeepsEmailsUnique(users: map<int, User>, id: int, u: User)
    requires EmailsUnique(users) && id !in users && !EmailInUse(users, u.email)
    ensures EmailsUnique(users[id := u])
  {
  }

  /** Rewriting a row with an email no other row holds keeps emails unique. */
  lemma ReplaceKeepsEmailsUnique(users: map<int, User>, id: int, u: User)
    requires EmailsUnique(users) && !EmailTakenByOther(users, id, u.email)
    ensures EmailsUnique(users[id := u])
  {
  }

  const UploadsPrefix: string := "/uploads/"

  /** `"/uploads/" + req.file.filename`: where an uploaded file is served. */
  function UploadPath(filename: string): string
  {
    UploadsPrefix + filename
  }

  /** Distinct stored file names give distinct public paths, and every such
      path lies under the uploads prefix. */
  lemma UploadPathInjective(a: string, b: string)
    ensures UploadPath(a)[..|UploadsPrefix|] == UploadsPrefix
    ensures UploadPath(a) == UploadPath(b) ==> a == b
  {
    assert UploadPath(a)[|UploadsPrefix|..] == a;
    assert UploadPath(b)[|UploadsPrefix|..] == b;
  }

  /** `SELECT * FROM items ORDER BY id DESC`, restricted to ids below `below`:
      exactly the stored rows, each once, in strictly descending id order. */
  function NewestFirst(items: map<int, Item>, below: int): (rows: seq<ItemRow>)
    decreases below
    ensures forall i :: 0 <= i < |rows| ==>
      0 <= rows[i].id < below && rows[i].id in items && RowOf(rows[i].id, items[rows[i].id]) == rows[i]
    ensures forall id :: 0 <= id < below && id in items ==> RowOf(id, items[id]) in rows
    ensures forall i, j :: 0 <= i < j < |rows| ==> rows[i].id > rows[j].id
  {
    if below <= 0 then []
    else
      var id := below - 1;
      (if id in items then [RowOf(id, items[id])] else []) + NewestFirst(items, id)
  }

  /** Rows at or above the bound do not affect the listing below it. */
  lemma {:induction false} NewestFirstBelow(items: map<int, Item>, below: int, id: int, item: Item)
    requires id >= below
    ensures NewestFirst(items[id := item], below) == NewestFirst(items, below)
    decreases below
  {
    if below > 0 {
      NewestFirstBelow(items, below - 1, id, item);
    }
  }

  /** An item inserted with an id above every stored id is listed first, ahead
      of the unchanged listing of the others: "newest first". */
  lemma CreatedItemListedFirst(items: map<int, Item>, next: int, item: Item)
    requires next >= 0
    requires forall id :: id in items ==> id < next
    ensures NewestFirst(items[next := item], next + 1) == [RowOf(next, item)] + NewestFirst(items, next)
  {
    NewestFirstBelow(items, next, next, item);
  }
}
