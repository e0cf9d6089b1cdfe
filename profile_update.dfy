/** The `PUT /api/me` statement builder of backend/index.js: the `updates`
    (SET clauses) and `params` (their values) lists grown field by field, and
    what MySQL does with `UPDATE users SET <updates> WHERE id = ?`. */
module ProfileUpdate {
  import opened Js
  import opened Passwords
  import opened Tables

  /** The multipart form of `PUT /api/me`: `req.body.name`, `email`,
      `password` and the stored name of `req.file`, if a file was sent. */
  datatype ProfileForm = ProfileForm(name: Option<string>, email: Option<string>, password: Option<string>, file: Option<string>)

  /** A SET clause: `"name = ?"`, `"email = ?"`, `"password = ?"` or
      `"profile_image = ?"`. */
  datatype Column = Name | Email | Password | ProfileImage

  /** A bound query parameter. */
  datatype SqlValue = Text(text: string) | Digest(hash: PasswordHash) | Int(n: int) | Null

  /** The position of a column in the order the handler tests the fields. */
  function Rank(c: Column): nat
  {
    match c
    case Name => 0
    case Email => 1
    case Password => 2
    case ProfileImage => 3
  }

  /** The value the form assigns to a column, if the handler pushes a clause
      for it: truthy name, email and password (the password hashed), and the
      upload path of a sent file. */
  function Assigned(c: Column, form: ProfileForm): Option<SqlValue>
  {
    match c
    case Name => if Truthy(form.name) then Some(Text(form.name.value)) else None
    case Email => if Truthy(form.email) then Some(Text(form.email.value)) else None
    case Password => if Truthy(form.password) then Some(Digest(Hash(form.password.value))) else None
    case ProfileImage => if form.file.Some? then Some(Text(UploadPath(form.file.value))) else None
  }

  /** Some field of the form leads to a SET clause. */
  predicate AnyField(form: ProfileForm)
  {
    Truthy(form.name) || Truthy(form.email) || Truthy(form.password) || form.file.Some?
  }

  /** The lists line up with the fields of rank below `k`: one clause per
      present field among them and no other, in the fixed order name, email,
      password, profile_image, with `params[i]` the value of clause
      `updates[i]`. */
  ghost predicate LinesUpBelow(form: ProfileForm, updates: seq<Column>, params: seq<SqlValue>, k: nat)
  {
    && |params| == |updates|
    && (forall i :: 0 <= i < |updates| ==> Assigned(updates[i], form) == Some(params[i]))
    && (forall c :: c in updates <==> Rank(c) < k && Assigned(c, form).Some?)
    && (forall i, j :: 0 <= i < j < |updates| ==> Rank(updates[i]) < Rank(updates[j]))
  }

  /** The lists line up with the whole form. */
  ghost predicate LinesUp(form: ProfileForm, updates: seq<Column>, params: seq<SqlValue>)
  {
    LinesUpBelow(form, updates, params, 4)
  }

  /** Testing the next field and pushing its clause when it is present keeps
      the lists lined up, one rank further. */
  lemma PushKeepsLinesUp(form: ProfileForm, updates: seq<Column>, params: seq<SqlValue>, c: Column,
                         updates': seq<Column>, params': seq<SqlValue>)
    requires LinesUpBelow(form, updates, params, Rank(c))
    requires Assigned(c, form).Some? ==> updates' == updates + [c] && params' == params + [Assigned(c, form).value]
    requires Assigned(c, form).None? ==> updates' == updates && params' == params
    ensures LinesUpBelow(form, updates', params', Rank(c) + 1)
  {
  }

  /** No clause at all exactly when no field of the form is present. */
  lemma EmptyExactlyWithoutFields(form: ProfileForm, updates: seq<Column>, params: seq<SqlValue>)
    requires LinesUp(form, updates, params)
    ensures |updates| == 0 <==> !AnyField(form)
  {
    if Truthy(form.name) { assert Name in updates; }
    if Truthy(form.email) { assert Email in updates; }
    if Truthy(form.password) { assert Password in updates; }
    if form.file.Some? { assert ProfileImage in updates; }
    if |updates| > 0 {
      assert Assigned(updates[0], form).Some?;
    }
  }

  /** Lines 144-159: the two lists grown with `push`, one field at a time. */
  method BuildProfileSet(form: ProfileForm) returns (updates: seq<Column>, params: seq<SqlValue>)
    ensures LinesUp(form, updates, params)
    ensures |updates| == 0 <==> !AnyField(form)
  {
    updates, params := [], [];
    ghost var u0, p0 := updates, params;
    if Truthy(form.name) {
      updates, params := updates + [Name], params + [Text(form.name.value)];
    }
    PushKeepsLinesUp(form, u0, p0, Name, updates, params);
    u0, p0 := updates, params;
    if Truthy(form.email) {
      updates, params := updates + [Email], params + [Text(form.email.value)];
    }
    PushKeepsLinesUp(form, u0, p0, Email, updates, params);
    u0, p0 := updates, params;
    if Truthy(form.password) {
      var hashed := Hash(form.password.value);
      updates, params := updates + [Password], params + [Digest(hashed)];
    }
    PushKeepsLinesUp(form, u0, p0, Password, updates, params);
    u0, p0 := updates, params;
    if form.file.Some? {
      var imgPath := UploadPath(form.file.value);
      updates, params := updates + [ProfileImage], params + [Text(imgPath)];
    }
    PushKeepsLinesUp(form, u0, p0, ProfileImage, updates, params);
    EmptyExactlyWithoutFields(form, updates, params);
  }

  /** The value a row holds in a column, as MySQL would bind it. */
  function Field(u: User, c: Column): SqlValue
  {
    match c
    case Name => Text(u.name)
    case Email => Text(u.email)
    case Password => Digest(u.password)
    case ProfileImage => if u.profileImage.Some? then Text(u.profileImage.value) else Null
  }

  /** One `column = ?` assignment; a value of the wrong kind leaves the row
      as it is (the handler never binds one). */
  function Assign(u: User, c: Column, v: SqlValue): User
  {
    match (c, v)
    case (Name, Text(s)) => u.(name := s)
    case (Email, Text(s)) => u.(email := s)
    case (Password, Digest(h)) => u.(password := h)
    case (ProfileImage, Text(p)) => u.(profileImage := Some(p))
    case (ProfileImage, Null) => u.(profileImage := None)
    case _ => u
  }

  /** The SET list applied to a row, clause by clause, left to right. */
  function ApplySet(u: User, updates: seq<Column>, params: seq<SqlValue>): User
    requires |params| == |updates|
    decreases |updates|
  {
    if updates == [] then u
    else ApplySet(Assign(u, updates[0], params[0]), updates[1..], params[1..])
  }

  /** The row the handler means to produce: each present field replaced, the
      password re-hashed, every other column as it was. */
  function Patched(u: User, form: ProfileForm): User
  {
    User(
      if Truthy(form.name) then form.name.value else u.name,
      if Truthy(form.email) then form.email.value else u.email,
      if Truthy(form.password) then Hash(form.password.value) else u.password,
      if form.file.Some? then Some(UploadPath(form.file.value)) else u.profileImage)
  }

  /** A row is determined by its four columns. */
  lemma {:induction false} FieldsDetermineUser(u: User, w: User)
    requires forall c :: Field(u, c) == Field(w, c)
    ensures u == w
  {
    assert Field(u, Name) == Field(w, Name);
    assert Field(u, Email) == Field(w, Email);
    assert Field(u, Password) == Field(w, Password);
    assert Field(u, ProfileImage) == Field(w, ProfileImage);
  }

  /** Applying a SET list with distinct columns whose values come from the
      form: each listed column takes the form's value, the others keep the
      row's. */
  lemma {:induction false} ApplySetFields(u: User, form: ProfileForm, updates: seq<Column>, params: seq<SqlValue>, c: Column)
    requires |params| == |updates|
    requires forall i :: 0 <= i < |updates| ==> Assigned(updates[i], form) == Some(params[i])
    requires forall i, j :: 0 <= i < j < |updates| ==> updates[i] != updates[j]
    ensures Field(ApplySet(u, updates, params), c) ==
      if c in updates then Assigned(c, form).value else Field(u, c)
    decreases |updates|
  {
    if updates != [] {
      var u' := Assign(u, updates[0], params[0]);
      assert Assigned(updates[0], form) == Some(params[0]);
      assert forall i :: 0 <= i < |updates[1..]| ==> Assigned(updates[1..][i], form) == Some(params[1..][i]) by {
        forall i | 0 <= i < |updates[1..]| ensures Assigned(updates[1..][i], form) == Some(params[1..][i]) {
          assert updates[1..][i] == updates[i + 1] && params[1..][i] == params[i + 1];
        }
      }
      assert forall i, j :: 0 <= i < j < |updates[1..]| ==> updates[1..][i] != updates[1..][j] by {
        forall i, j | 0 <= i < j < |updates[1..]| ensures updates[1..][i] != updates[1..][j] {
          assert updates[1..][i] == updates[i + 1] && updates[1..][j] == updates[j + 1];
        }
      }
      ApplySetFields(u', form, updates[1..], params[1..], c);
      assert updates[0] !in updates[1..] by {
        forall k | 0 <= k < |updates[1..]| ensures updates[1..][k] != updates[0] {
          assert updates[1..][k] == updates[k + 1];
        }
      }
      assert c in updates <==> c == updates[0] || c in updates[1..] by {
        assert updates == [updates[0]] + updates[1..];
      }
      if c == updates[0] {
        assert Field(u', c) == params[0];
      } else {
        assert Field(u', c) == Field(u, c);
      }
    }
  }

  /** The statement the handler builds does what the handler means: whatever
      lists line up with the form, applying them yields the patched row. */
  lemma BuiltSetPatches(u: User, form: ProfileForm, updates: seq<Column>, params: seq<SqlValue>)
    requires LinesUp(form, updates, params)
    ensures ApplySet(u, updates, params) == Patched(u, form)
  {
    forall i, j | 0 <= i < j < |updates| ensures updates[i] != updates[j] {
      assert Rank(updates[i]) < Rank(updates[j]);
    }
    forall c ensures Field(ApplySet(u, updates, params), c) == Field(Patched(u, form), c) {
      ApplySetFields(u, form, updates, params, c);
    }
    FieldsDetermineUser(ApplySet(u, updates, params), Patched(u, form));
  }
}
