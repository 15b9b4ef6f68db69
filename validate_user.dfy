/** The `validateUser` middleware (middlewares/verificacao.js): when `verificateUser`
    rejects the body it answers 400 with one message per failed field check; otherwise it
    calls `next()`. */
module ValidateUserMiddleware {
  import opened Js
  import opened Http
  import opened UserVerification

  /** The eight checks the middleware can report, in the order it runs them. */
  datatype Check =
    | UsernameRequired | UsernameMax | FirstNameRequired | FirstNameMax
    | LastNameRequired | LastNameMax | EmailRequired | PasswordRequired

  /** The body field a check looks at. */
  function Field(c: Check): string
  {
    match c
    case UsernameRequired | UsernameMax => "username"
    case FirstNameRequired | FirstNameMax => "first_name"
    case LastNameRequired | LastNameMax => "last_name"
    case EmailRequired => "email"
    case PasswordRequired => "password"
  }

  /** Presence checks; the other three are the length checks of the name fields. */
  predicate IsPresenceCheck(c: Check)
  {
    !(c.UsernameMax? || c.FirstNameMax? || c.LastNameMax?)
  }

  /** A presence check fails on a falsy field; a length check fails on a present field
      longer than 10 (`else if` after the presence check). */
  predicate Fails(b: Body, c: Check)
  {
    if IsPresenceCheck(c) then !Truthy(b, Field(c)) else Truthy(b, Field(c)) && TooLong(b, Field(c))
  }

  function Message(c: Check): string
  {
    match c
    case UsernameRequired => "Nome de usuário é obrigatório."
    case UsernameMax => "Nome de usuário deve ter no máximo 10 caracteres."
    case FirstNameRequired => "Nome é obrigatório."
    case FirstNameMax => "Nome deve ter no máximo 10 caracteres."
    case LastNameRequired => "Sobrenome é obrigatório."
    case LastNameMax => "Sobrenome deve ter no máximo 10 caracteres."
    case EmailRequired => "Email é obrigatório."
    case PasswordRequired => "Senha é obrigatória."
  }

  const ValidationMessage := "Erro de validação"

  /** The checks `b` fails, in the order the middleware runs them. */
  function Reported(b: Body): seq<Check>
  {
    Piece(b, UsernameRequired) + Piece(b, UsernameMax) + Piece(b, FirstNameRequired) + Piece(b, FirstNameMax)
    + Piece(b, LastNameRequired) + Piece(b, LastNameMax) + Piece(b, EmailRequired) + Piece(b, PasswordRequired)
  }

  /** One check's contribution: itself when the body fails it. */
  function Piece(b: Body, c: Check): seq<Check>
  {
    if Fails(b, c) then [c] else []
  }

  /** The JSON `errors` array: the message of each failed check. */
  function Messages(cs: seq<Check>): seq<string>
  {
    seq(|cs|, i requires 0 <= i < |cs| => Message(cs[i]))
  }

  method ValidateUser(b: Body) returns (g: Gate)
    ensures g.Next? <==> VerificateUser(b).isValid
    ensures g.Halt? ==> g == Halt(400, ValidationErrors(ValidationMessage, Messages(Reported(b))))
  {
    var verification := VerificateUser(b);
    if !verification.isValid {
      var errors: seq<string> := [];
      ghost var failed: seq<Check> := [];
      errors, failed := CheckNameField(b, UsernameRequired, UsernameMax, errors, failed);
      assert failed == Piece(b, UsernameRequired) + Piece(b, UsernameMax);
      errors, failed := CheckNameField(b, FirstNameRequired, FirstNameMax, errors, failed);
      errors, failed := CheckNameField(b, LastNameRequired, LastNameMax, errors, failed);
      errors, failed := CheckPresent(b, EmailRequired, errors, failed);
      errors, failed := CheckPresent(b, PasswordRequired, errors, failed);
      assert failed == Reported(b);
      return Halt(400, ValidationErrors(ValidationMessage, errors));
    }
    return Next;
  }

  /** The block the middleware repeats for username, first_name and last_name: push the
      "required" message when the field is falsy, else the "at most 10" message when it is
      longer than 10. */
  method CheckNameField(b: Body, required: Check, max: Check, errors: seq<string>, ghost failed: seq<Check>)
    returns (errors': seq<string>, ghost failed': seq<Check>)
    requires IsPresenceCheck(required) && !IsPresenceCheck(max) && Field(required) == Field(max)
    requires errors == Messages(failed)
    ensures failed' == failed + Piece(b, required) + Piece(b, max)
    ensures errors' == Messages(failed')
  {
    var f := Field(max);
    errors', failed' := errors, failed;
    if !Truthy(b, f) {
      errors', failed' := Push(errors', failed', required);
    } else if Utf16Length(b[f]) > MaxNameLength {
      errors', failed' := Push(errors', failed', max);
    }
  }

  /** The presence-only block of email and password. */
  method CheckPresent(b: Body, required: Check, errors: seq<string>, ghost failed: seq<Check>)
    returns (errors': seq<string>, ghost failed': seq<Check>)
    requires IsPresenceCheck(required)
    requires errors == Messages(failed)
    ensures failed' == failed + Piece(b, required)
    ensures errors' == Messages(failed')
  {
    errors', failed' := errors, failed;
    if !Truthy(b, Field(required)) {
      errors', failed' := Push(errors', failed', required);
    }
  }

  /** `errors.push(message)`, with the failed check recorded beside it. */
  method Push(errors: seq<string>, ghost failed: seq<Check>, c: Check)
    returns (errors': seq<string>, ghost failed': seq<Check>)
    requires errors == Messages(failed)
    ensures errors' == errors + [Message(c)]
    ensures failed' == failed + [c]
    ensures errors' == Messages(failed')
  {
    errors', failed' := errors + [Message(c)], failed + [c];
  }

  /** What each check decides, field by field. */
  lemma PieceFacts(b: Body)
    ensures |Piece(b, UsernameRequired)| == (if !Truthy(b, "username") then 1 else 0)
    ensures |Piece(b, UsernameMax)| == (if Truthy(b, "username") && TooLong(b, "username") then 1 else 0)
    ensures |Piece(b, FirstNameRequired)| == (if !Truthy(b, "first_name") then 1 else 0)
    ensures |Piece(b, FirstNameMax)| == (if Truthy(b, "first_name") && TooLong(b, "first_name") then 1 else 0)
    ensures |Piece(b, LastNameRequired)| == (if !Truthy(b, "last_name") then 1 else 0)
    ensures |Piece(b, LastNameMax)| == (if Truthy(b, "last_name") && TooLong(b, "last_name") then 1 else 0)
    ensures |Piece(b, EmailRequired)| == (if !Truthy(b, "email") then 1 else 0)
    ensures |Piece(b, PasswordRequired)| == (if !Truthy(b, "password") then 1 else 0)
  {
  }

  lemma InPiece(b: Body, c: Check, d: Check)
    ensures d in Piece(b, c) <==> d == c && Fails(b, c)
  {
  }

  /** The list holds exactly the checks the body fails. */
  lemma ReportedExactly(b: Body)
    ensures forall c :: c in Reported(b) <==> Fails(b, c)
  {
    forall c ensures c in Reported(b) <==> Fails(b, c) {
      InPiece(b, UsernameRequired, c); InPiece(b, UsernameMax, c);
      InPiece(b, FirstNameRequired, c); InPiece(b, FirstNameMax, c);
      InPiece(b, LastNameRequired, c); InPiece(b, LastNameMax, c);
      InPiece(b, EmailRequired, c); InPiece(b, PasswordRequired, c);
      assert c.UsernameRequired? || c.UsernameMax? || c.FirstNameRequired? || c.FirstNameMax?
          || c.LastNameRequired? || c.LastNameMax? || c.EmailRequired? || c.PasswordRequired?;
    }
  }

  /** The error list is empty exactly when `verificateUser` accepts the body, so the 400
      answer always carries at least one message. */
  lemma ReportedIffInvalid(b: Body)
    ensures VerificateUser(b).isValid <==> Reported(b) == []
  {
    PieceFacts(b);
    ValidIffFieldChecks(b);
    assert Reported(b) == [] <==> |Reported(b)| == 0;
  }

  /** Each of username, first_name and last_name contributes at most one message (presence
      and length exclude each other), email and password at most a presence message, so
      there are at most five. */
  lemma AtMostFive(b: Body)
    ensures !(UsernameRequired in Reported(b) && UsernameMax in Reported(b))
    ensures !(FirstNameRequired in Reported(b) && FirstNameMax in Reported(b))
    ensures !(LastNameRequired in Reported(b) && LastNameMax in Reported(b))
    ensures |Reported(b)| <= 5
  {
    ReportedExactly(b);
    PieceFacts(b);
  }

  /** Two bodies that pass and fail the same checks get the same list. */
  lemma ReportedAgree(b1: Body, b2: Body)
    requires forall c :: Fails(b1, c) == Fails(b2, c)
    ensures Reported(b1) == Reported(b2)
  {
    assert Fails(b1, UsernameRequired) == Fails(b2, UsernameRequired);
    assert Fails(b1, UsernameMax) == Fails(b2, UsernameMax);
    assert Fails(b1, FirstNameRequired) == Fails(b2, FirstNameRequired);
    assert Fails(b1, FirstNameMax) == Fails(b2, FirstNameMax);
    assert Fails(b1, LastNameRequired) == Fails(b2, LastNameRequired);
    assert Fails(b1, LastNameMax) == Fails(b2, LastNameMax);
    assert Fails(b1, EmailRequired) == Fails(b2, EmailRequired);
    assert Fails(b1, PasswordRequired) == Fails(b2, PasswordRequired);
  }

  /** Email and password get no length message: any non-empty email and password give the
      same list. */
  lemma EmailAndPasswordPresenceOnly(b: Body, email: string, password: string)
    requires email != "" && password != ""
    ensures Reported(b["email" := email]["password" := password])
         == Reported(b["email" := "x"]["password" := "x"])
  {
    var b1, b2 := b["email" := email]["password" := password], b["email" := "x"]["password" := "x"];
    forall c ensures Fails(b1, c) == Fails(b2, c) {
      var f := Field(c);
      if f == "email" || f == "password" {
        assert Truthy(b1, f) && Truthy(b2, f);
        assert IsPresenceCheck(c);
      } else {
        assert f in b1 <==> f in b2;
        assert f in b1 ==> b1[f] == b2[f];
      }
    }
    ReportedAgree(b1, b2);
  }
}
