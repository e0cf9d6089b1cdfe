/** Flows across several requests, stated against one server whose token
    signer and verifier share a secret. */
module Scenarios {
  import opened Js
  import opened Jwt
  import opened Auth
  import opened Passwords
  import opened Tables
  import opened ProfileUpdate
  import opened Http
  import opened Backend

  /** Register, then log in with the same credentials: the token carries the
      new user's id, and presenting it as a bearer header reads back the
      registered profile with no image. */
  method RegisterThenLogin(s: Server, name: string, email: string, password: string) returns (token: string, me: Response)
    requires s.Valid() && Paired(s.sign, s.verify)
    requires name != "" && email != "" && password != ""
    requires !EmailInUse(s.users, email)
    modifies s
    ensures s.Valid()
    ensures Some(token) == s.sign(Claims(old(s.nextUserId)))
    ensures s.Gate(Some("Bearer " + token)) == Accept(Claims(old(s.nextUserId)))
    ensures me == Response(200, Profile(Some(UserView(old(s.nextUserId), name, email, None))))
  {
    var registered := s.Register(Some(name), Some(email), Some(password));
    assert registered == Reply(200, RegistrationSuccessful);
    var id := old(s.nextUserId);
    assert id in s.users && s.users[id].email == email;
    var login := s.Login(Some(email), Some(password));
    IssuedTokenAccepted(s.sign, s.verify, Claims(id));
    assert login == Response(200, TokenIssued(s.sign(Claims(id)).value));
    token := login.body.token;
    me := s.GetMe(Some("Bearer " + token));
  }

  /** Registering the same email twice: the second call is refused and
      changes nothing. */
  method RegisterTwice(s: Server, name: string, email: string, password: string) returns (second: Response)
    requires s.Valid()
    requires name != "" && email != "" && password != ""
    modifies s
    ensures s.Valid()
    ensures second == Reply(400, EmailAlreadyExists)
  {
    var first := s.Register(Some(name), Some(email), Some(password));
    assert EmailInUse(s.users, email) by {
      if first == Reply(200, RegistrationSuccessful) {
        assert s.users[old(s.nextUserId)].email == email;
      }
    }
    second := s.Register(Some(name), Some(email), Some(password));
  }

  /** Changing only the password through PUT /api/me: afterwards the new
      password logs in and the old one does not, provided bcrypt can tell
      them apart (their keys differ; see `Passwords.Key`). */
  method ChangePassword(s: Server, id: int, oldPassword: string, newPassword: string)
    returns (withNew: Response, withOld: Response)
    requires s.Valid() && Paired(s.sign, s.verify)
    requires id in s.users && Matches(oldPassword, s.users[id].password)
    requires newPassword != "" && Key(newPassword) != Key(oldPassword)
    modifies s
    ensures s.Valid()
    ensures withNew == Response(200, TokenIssued(s.sign(Claims(id)).value))
    ensures withOld == Reply(400, InvalidCredentials)
  {
    var email := s.users[id].email;
    IssuedTokenAccepted(s.sign, s.verify, Claims(id));
    var form := ProfileForm(None, None, Some(newPassword), None);
    assert Patched(s.users[id], form).email == email;
    assert !EmailTakenByOther(s.users, id, email);
    var updated := s.UpdateMe(Some("Bearer " + s.sign(Claims(id)).value), form);
    assert updated == Reply(200, ProfileUpdated);
    assert s.users[id].password == Hash(newPassword) && s.users[id].email == email;
    withNew := s.Login(Some(email), Some(newPassword));
    withOld := s.Login(Some(email), Some(oldPassword));
  }
}
