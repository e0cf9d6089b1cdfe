/** The JSON responses the handlers send: a status and one of the body
    shapes of backend/index.js. */
module Http {
  import opened Js
  import opened Tables

  datatype Body =
    | Message(text: string)            // { message }
    | TokenIssued(token: string)       // { token }
    | Profile(user: Option<UserView>)  // rows[0], undefined when no row matched
    | ItemList(rows: seq<ItemRow>)     // rows

  datatype Response = Response(status: int, body: Body)

  const AllFieldsRequired: string := "All fields required"
  const EmailAlreadyExists: string := "Email already exists"
  const RegistrationSuccessful: string := "Registration successful"
  const InvalidCredentials: string := "Invalid credentials"
  const ServerError: string := "Server Error"
  const NoFieldsToUpdate: string := "No fields to update"
  const EmailAlreadyUsed: string := "Email already used"
  const ProfileUpdated: string := "Profile updated"
  const ItemCreated: string := "Item created"
  const ItemUpdated: string := "Item updated"
  const ItemDeleted: string := "Item deleted"

  /** `res.status(status).json({ message })`; `res.json({ message })` is
      status 200. */
  function Reply(status: int, message: string): Response
  {
    Response(status, Message(message))
  }
}
