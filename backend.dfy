/** The route handlers of backend/index.js over an in-memory model of the
    `users` and `items` tables. Protected routes run the middleware of
    backend/auth.js first; when it rejects, the handler is not reached and
    neither table changes. */
module Backend {
  import opened Js
  import opened Jwt
  import opened Auth
  import opened Passwords
  import opened Tables
  import opened ProfileUpdate
  import opened Http

  /** The response the middleware sends when it rejects. */
  function Denied(o: Outcome): Response
    requires o.Reject?
  {
    Reply(o.status, o.message)
  }

  class Server {
    /** `jwt.sign(_, process.env.JWT_SECRET, { expiresIn: "7d" })` and
        `jwt.verify(_, process.env.JWT_SECRET, _)`, fixed at start-up. */
    const sign: Signer
    const verify: Verifier

    var users: map<int, User>
    var items: map<int, Item>
    /** The AUTO_INCREMENT counters of the two tables. */
    var nextUserId: int
    var nextItemId: int

    /** Ids are positive and below their counter; emails are unique. */
    ghost predicate Valid()
      reads this
    {
      && 1 <= nextUserId && 1 <= nextItemId
      && (forall id :: id in users ==> 1 <= id < nextUserId)
      && (forall id :: id in items ==> 1 <= id < nextItemId)
      && EmailsUnique(users)
    }

    constructor (sign: Signer, verify: Verifier)
      ensures Valid()
      ensures this.sign == sign && this.verify == verify
      ensures users == map[] && items == map[]
      ensures nextUserId == 1 && nextItemId == 1
    {
      this.sign := sign;
      this.verify := verify;
      users, items := map[], map[];
      nextUserId, nextItemId := 1, 1;
    }

    /** The `auth` middleware in front of a protected route. */
    function Gate(authorization: Option<string>): Outcome
    {
      Authenticate(authorization, verify)
    }

    /** POST /api/register. */
    method Register(name: Option<string>, email: Option<string>, password: Option<string>) returns (resp: Response)
      requires Valid()
      modifies this
      ensures Valid()
      ensures items == old(items) && nextItemId == old(nextItemId)
      ensures !(Truthy(name) && Truthy(email) && Truthy(password)) ==>
        resp == Reply(400, AllFieldsRequired) && users == old(users) && nextUserId == old(nextUserId)
      ensures Truthy(name) && Truthy(email) && Truthy(password) && EmailInUse(old(users), email.value) ==>
        resp == Reply(400, EmailAlreadyExists) && users == old(users) && nextUserId == old(nextUserId)
      ensures Truthy(name) && Truthy(email) && Truthy(password) && !EmailInUse(old(users), email.value) ==>
        && resp == Reply(200, RegistrationSuccessful)
        && old(nextUserId) !in old(users)
        && users == old(users)[old(nextUserId) := User(name.value, email.value, Hash(password.value), None)]
        && nextUserId == old(nextUserId) + 1
    {
      if !Truthy(name) || !Truthy(email) || !Truthy(password) {
        return Reply(400, AllFieldsRequired);
      }
      if EmailInUse(users, email.value) {
        return Reply(400, EmailAlreadyExists);
      }
      var hashed := Hash(password.value);
      var row := User(name.value, email.value, hashed, None);
      InsertKeepsEmailsUnique(users, nextUserId, row);
      users := users[nextUserId := row];
      nextUserId := nextUserId + 1;
      resp := Reply(200, RegistrationSuccessful);
    }

    /** POST /api/login. An unknown email and a wrong password give the same
        response; a missing password for a known email makes
        `bcrypt.compare` throw, and so does `jwt.sign` without a secret: the
        catch turns either into 500. */
    method Login(email: Option<string>, password: Option<string>) returns (resp: Response)
      requires Valid()
      ensures email.None? || !EmailInUse(users, email.value) ==> resp == Reply(400, InvalidCredentials)
      ensures forall id :: id in users && email == Some(users[id].email) ==>
        resp == (if password.None? then Reply(500, ServerError)
                 else if !Matches(password.value, users[id].password) then Reply(400, InvalidCredentials)
                 else if sign(Claims(id)).None? then Reply(500, ServerError)
                 else Response(200, TokenIssued(sign(Claims(id)).value)))
    {
      if email.None? || !EmailInUse(users, email.value) {
        return Reply(400, InvalidCredentials);
      }
      var id :| id in users && users[id].email == email.value;
      var user := users[id];
      if password.None? {
        return Reply(500, ServerError);
      }
      var valid := Matches(password.value, user.password);
      if !valid {
        return Reply(400, InvalidCredentials);
      }
      var token := sign(Claims(id));
      if token.None? {
        return Reply(500, ServerError);
      }
      resp := Response(200, TokenIssued(token.value));
    }

    /** GET /api/me: the caller's row without its password, or an empty
        body when no row has the token's id (there is no 404 branch). */
    method GetMe(authorization: Option<string>) returns (resp: Response)
      requires Valid()
      ensures Gate(authorization).Reject? ==> resp == Denied(Gate(authorization))
      ensures Gate(authorization).Accept? ==>
        var id := Gate(authorization).user.id;
        resp == Response(200, Profile(if id in users then Some(View(id, users[id])) else None))
    {
      var gate := Gate(authorization);
      if gate.Reject? {
        return Denied(gate);
      }
      var id := gate.user.id;
      if id in users {
        resp := Response(200, Profile(Some(View(id, users[id]))));
      } else {
        resp := Response(200, Profile(None));
      }
    }

    /** `UPDATE users SET <updates> WHERE id = ?` with `params`, the last
        parameter being the id. No matching row changes nothing; a new email
        held by another row is refused by the UNIQUE constraint
        (`ER_DUP_ENTRY`) and changes nothing. */
    method RunProfileUpdate(updates: seq<Column>, params: seq<SqlValue>) returns (duplicate: bool)
      requires Valid()
      requires |params| == |updates| + 1 && params[|updates|].Int?
      modifies this`users
      ensures Valid()
      ensures var id := params[|updates|].n;
        if id !in old(users) then !duplicate && users == old(users)
        else
          var row := ApplySet(old(users)[id], updates, params[..|updates|]);
          && duplicate == EmailTakenByOther(old(users), id, row.email)
          && users == if duplicate then old(users) else old(users)[id := row]
    {
      var id := params[|updates|].n;
      if id !in users {
        return false;
      }
      var row := ApplySet(users[id], updates, params[..|updates|]);
      duplicate := EmailTakenByOther(users, id, row.email);
      if !duplicate {
        ReplaceKeepsEmailsUnique(users, id, row);
        users := users[id := row];
      }
    }

    /** PUT /api/me. */
    method UpdateMe(authorization: Option<string>, form: ProfileForm) returns (resp: Response)
      requires Valid()
      modifies this
      ensures Valid()
      ensures items == old(items) && nextItemId == old(nextItemId) && nextUserId == old(nextUserId)
      ensures Gate(authorization).Reject? ==> resp == Denied(Gate(authorization)) && users == old(users)
      ensures Gate(authorization).Accept? && !AnyField(form) ==>
        resp == Reply(400, NoFieldsToUpdate) && users == old(users)
      ensures Gate(authorization).Accept? && AnyField(form) ==>
        var id := Gate(authorization).user.id;
        if id !in old(users) then
          resp == Reply(200, ProfileUpdated) && users == old(users)
        else if EmailTakenByOther(old(users), id, Patched(old(users)[id], form).email) then
          resp == Reply(400, EmailAlreadyUsed) && users == old(users)
        else
          resp == Reply(200, ProfileUpdated) && users == old(users)[id := Patched(old(users)[id], form)]
    {
      var gate := Gate(authorization);
      if gate.Reject? {
        return Denied(gate);
      }
      var updates, params := BuildProfileSet(form);
      if |updates| == 0 {
        return Reply(400, NoFieldsToUpdate);
      }
      params := params + [Int(gate.user.id)];
      assert params[..|updates|] == params[..|params| - 1];
      if gate.user.id in users {
        BuiltSetPatches(users[gate.user.id], form, updates, params[..|updates|]);
      }
      var duplicate := RunProfileUpdate(updates, params);
      if duplicate {
        return Reply(400, EmailAlreadyUsed);
      }
      resp := Reply(200, ProfileUpdated);
    }

    /** POST /api/items. A missing name is NULL for a NOT NULL column: the
        insert fails and the catch answers 500. */
    method CreateItem(authorization: Option<string>, name: Option<string>, file: Option<string>) returns (resp: Response)
      requires Valid()
      modifies this
      ensures Valid()
      ensures users == old(users) && nextUserId == old(nextUserId)
      ensures Gate(authorization).Reject? ==>
        resp == Denied(Gate(authorization)) && items == old(items) && nextItemId == old(nextItemId)
      ensures Gate(authorization).Accept? && name.None? ==>
        resp == Reply(500, ServerError) && items == old(items) && nextItemId == old(nextItemId)
      ensures Gate(authorization).Accept? && name.Some? ==>
        && resp == Reply(200, ItemCreated)
        && old(nextItemId) !in old(items)
        && items == old(items)[old(nextItemId) := Item(name.value, if file.Some? then Some(UploadPath(file.value)) else None)]
        && nextItemId == old(nextItemId) + 1
    {
      var gate := Gate(authorization);
      if gate.Reject? {
        return Denied(gate);
      }
      var image := if file.Some? then Some(UploadPath(file.value)) else None;
      if name.None? {
        return Reply(500, ServerError);
      }
      items := items[nextItemId := Item(name.value, image)];
      nextItemId := nextItemId + 1;
      resp := Reply(200, ItemCreated);
    }

    /** GET /api/items: every item, newest (highest id) first. */
    method ListItems(authorization: Option<string>) returns (resp: Response)
      requires Valid()
      ensures Gate(authorization).Reject? ==> resp == Denied(Gate(authorization))
      ensures Gate(authorization).Accept? ==> resp.status == 200 && resp.body.ItemList?
      ensures Gate(authorization).Accept? ==>
        var rows := resp.body.rows;
        && (forall i :: 0 <= i < |rows| ==> rows[i].id in items && RowOf(rows[i].id, items[rows[i].id]) == rows[i])
        && (forall id :: id in items ==> RowOf(id, items[id]) in rows)
        && (forall i, j :: 0 <= i < j < |rows| ==> rows[i].id > rows[j].id)
    {
      var gate := Gate(authorization);
      if gate.Reject? {
        return Denied(gate);
      }
      resp := Response(200, ItemList(NewestFirst(items, nextItemId)));
    }

    /** PUT /api/items/:id. With a file both name and image are set, without
        one only the name; no row with that id changes nothing and still
        answers 200. A missing name on an existing row violates NOT NULL. */
    method UpdateItem(authorization: Option<string>, id: int, name: Option<string>, file: Option<string>) returns (resp: Response)
      requires Valid()
      modifies this`items
      ensures Valid()
      ensures Gate(authorization).Reject? ==> resp == Denied(Gate(authorization)) && items == old(items)
      ensures Gate(authorization).Accept? && id !in old(items) ==>
        resp == Reply(200, ItemUpdated) && items == old(items)
      ensures Gate(authorization).Accept? && id in old(items) && name.None? ==>
        resp == Reply(500, ServerError) && items == old(items)
      ensures Gate(authorization).Accept? && id in old(items) && name.Some? ==>
        && resp == Reply(200, ItemUpdated)
        && items == old(items)[id := Item(name.value, if file.Some? then Some(UploadPath(file.value)) else old(items)[id].image)]
    {
      var gate := Gate(authorization);
      if gate.Reject? {
        return Denied(gate);
      }
      if id !in items {
        return Reply(200, ItemUpdated);
      }
      if name.None? {
        return Reply(500, ServerError);
      }
      if file.Some? {
        var imgPath := UploadPath(file.value);
        items := items[id := Item(name.value, Some(imgPath))];
      } else {
        items := items[id := items[id].(name := name.value)];
      }
      resp := Reply(200, ItemUpdated);
    }

    /** DELETE /api/items/:id: removes that row, if any, and no other. */
    method DeleteItem(authorization: Option<string>, id: int) returns (resp: Response)
      requires Valid()
      modifies this`items
      ensures Valid()
      ensures Gate(authorization).Reject? ==> resp == Denied(Gate(authorization)) && items == old(items)
      ensures Gate(authorization).Accept? ==> resp == Reply(200, ItemDeleted) && items == old(items) - {id}
    {
      var gate := Gate(authorization);
      if gate.Reject? {
        return Denied(gate);
      }
      items := items - {id};
      resp := Reply(200, ItemDeleted);
    }
  }
}
