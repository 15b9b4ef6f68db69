/** `verificateUser` (utils/funcoes/verificacao.js): the presence check of the five
    account fields followed by the 10-character limit on the three name fields. */
module UserVerification {
  import opened Js

  /** `{ isValid, message }`; `message` is absent on success. */
  datatype Verification = Verification(isValid: bool, message: Option<string>)

  const RequiredFields: seq<string> := ["username", "first_name", "last_name", "email", "password"]

  /** The fields whose length is limited, in the order they are checked. */
  const NameFields: seq<string> := ["username", "first_name", "last_name"]

  const MaxNameLength: nat := 10

  const MissingFieldsMessage := "Nome de usuário, nome, sobrenome, email e senha são obrigatórios"
  const UsernameTooLongMessage := "Seu nome de usuário ultrapassou o limite de 10 caracteres."
  const FirstNameTooLongMessage := "Seu nome ultrapassou o limite de 10 caracteres."
  const LastNameTooLongMessage := "Seu sobrenome ultrapassou o limite de 10 caracteres."

  /** The message for each of `NameFields`, index by index. */
  const TooLongMessages: seq<string> := [UsernameTooLongMessage, FirstNameTooLongMessage, LastNameTooLongMessage]

  /** `[username, first_name, last_name, email, password].every(Boolean)`. */
  predicate AllPresent(b: Body)
  {
    forall f :: f in RequiredFields ==> Truthy(b, f)
  }

  /** `b[f].length > 10`, the length counted in UTF-16 code units. */
  predicate TooLong(b: Body, f: string)
  {
    f in b && Utf16Length(b[f]) > MaxNameLength
  }

  function VerificateUser(b: Body): (r: Verification)
    // the result is valid exactly when every field is present and no name is too long
    ensures r.isValid <==> AllPresent(b) && forall f :: f in NameFields ==> !TooLong(b, f)
    ensures r.isValid <==> r.message.None?
    // presence is decided first: a missing field gives the presence message whatever the lengths
    ensures !AllPresent(b) <==> r.message == Some(MissingFieldsMessage)
    // otherwise the first name field, in order, that is too long gives its own message
    ensures AllPresent(b) && !r.isValid ==>
      exists i :: 0 <= i < |NameFields| && TooLong(b, NameFields[i])
        && (forall j :: 0 <= j < i ==> !TooLong(b, NameFields[j]))
        && r.message == Some(TooLongMessages[i])
  {
    assert RequiredFields == ["username", "first_name", "last_name", "email", "password"];
    assert NameFields == ["username", "first_name", "last_name"];
    if !(Truthy(b, "username") && Truthy(b, "first_name") && Truthy(b, "last_name")
         && Truthy(b, "email") && Truthy(b, "password")) then
      Verification(false, Some(MissingFieldsMessage))
    else if TooLong(b, "username") then
      assert TooLongMessages[0] == UsernameTooLongMessage;
      Verification(false, Some(UsernameTooLongMessage))
    else if TooLong(b, "first_name") then
      assert TooLongMessages[1] == FirstNameTooLongMessage && !TooLong(b, NameFields[0]);
      Verification(false, Some(FirstNameTooLongMessage))
    else if TooLong(b, "last_name") then
      assert TooLongMessages[2] == LastNameTooLongMessage && !TooLong(b, NameFields[0]) && !TooLong(b, NameFields[1]);
      Verification(false, Some(LastNameTooLongMessage))
    else
      Verification(true, None)
  }

  /** Only the presence of `email` and `password` is checked, never their length: any two
      non-empty values give the same verdict and message. */
  lemma EmailAndPasswordLengthFree(b: Body, email: string, password: string, email': string, password': string)
    requires email != "" && password != "" && email' != "" && password' != ""
    ensures VerificateUser(b["email" := email]["password" := password])
         == VerificateUser(b["email" := email']["password" := password'])
  {
  }

  /** The verdict field by field, as the middleware re-checks it. */
  lemma ValidIffFieldChecks(b: Body)
    ensures VerificateUser(b).isValid <==>
      Truthy(b, "username") && Truthy(b, "first_name") && Truthy(b, "last_name")
      && Truthy(b, "email") && Truthy(b, "password")
      && !TooLong(b, "username") && !TooLong(b, "first_name") && !TooLong(b, "last_name")
  {
  }
}
