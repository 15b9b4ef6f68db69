/** How the handlers tell a duplicate username from a duplicate email: by looking for
    substrings of the server's `sqlMessage` (controllers/authController.js, controllers/
    usersController.js and controllers/userRegister.js repeat the same two tests). */
module Duplicates {
  import opened Js
  import opened Http
  import opened Store

  const UsernameTakenMessage := "Nome de usuário já cadastrado."
  const EmailTakenMessage := "Email já cadastrado."

  /** The two `includes` tests on `error.sqlMessage`, the username test first: the message of
      the 400 answer, or `None` when the handler falls through to its 500 answer. */
  function ClassifyDuplicate(m: string): (r: Option<string>)
    ensures r.Some? ==> Contains(m, "Duplicate entry")
    ensures r.Some? ==> r.value == UsernameTakenMessage || r.value == EmailTakenMessage
    // the username test is made first
    ensures Contains(m, "Duplicate entry") && Contains(m, "users.username") ==> r == Some(UsernameTakenMessage)
    ensures r == Some(EmailTakenMessage) ==> Contains(m, "users.email") && !Contains(m, "users.username")
  {
    if Contains(m, "Duplicate entry") && Contains(m, "users.username") then Some(UsernameTakenMessage)
    else if Contains(m, "Duplicate entry") && Contains(m, "users.email") then Some(EmailTakenMessage)
    else None
  }

  lemma HasDuplicateEntry(col: string, v: string)
    ensures Contains(DuplicateMessage(col, v), "Duplicate entry")
  {
    var m := DuplicateMessage(col, v);
    assert m[0..|"Duplicate entry"|] == "Duplicate entry";
    assert OccursAt(m, "Duplicate entry", 0);
  }

  lemma HasKey(col: string, v: string)
    ensures Contains(DuplicateMessage(col, v), KeyName(col))
  {
    var m := DuplicateMessage(col, v);
    var pre := DuplicatePrefix + "'" + v + "'" + ForKey + "'";
    assert m == pre + KeyName(col) + "'";
    assert m[|pre|..|pre| + |KeyName(col)|] == KeyName(col);
    assert OccursAt(m, KeyName(col), |pre|);
  }

  /** Every rejected duplicate username is answered with the username message, whatever the
      value. */
  lemma UsernameDuplicateClassified(v: string)
    ensures ClassifyDuplicate(DuplicateMessage("username", v)) == Some(UsernameTakenMessage)
  {
    HasDuplicateEntry("username", v);
    HasKey("username", v);
    assert KeyName("username") == "users.username";
  }

  /** In a text made of fixed pieces and one value, cut at quotes, a quote-free text that no
      fixed piece holds can only occur inside the value. */
  lemma OnlyInValue(pre: string, v: string, mid: string, key: string, t: string)
    requires '\'' !in t && |t| > 0
    requires !Contains(pre, t) && !Contains(mid, t) && !Contains(key, t)
    ensures Contains(pre + "'" + v + "'" + mid + "'" + key + "'", t) <==> Contains(v, t)
  {
    var q := '\'';
    var r3 := key + [q] + [];
    var r2 := mid + [q] + r3;
    var r1 := v + [q] + r2;
    assert pre + "'" + v + "'" + mid + "'" + key + "'" == pre + [q] + r1;
    ContainsAcrossSeparator(pre, q, r1, t);
    ContainsAcrossSeparator(v, q, r2, t);
    ContainsAcrossSeparator(mid, q, r3, t);
    ContainsAcrossSeparator(key, q, [], t);
    NotContainsMissingChar([], t, 0);
  }

  /** "users.username" occurs in a duplicate-email message only inside the rejected value. */
  lemma UsernameKeyInEmailMessage(v: string)
    ensures Contains(DuplicateMessage("email", v), "users.username") <==> Contains(v, "users.username")
  {
    var t := "users.username";
    NotContainsMissingChar(DuplicatePrefix, t, 1);
    NotContainsMissingChar(ForKey, t, 0);
    assert KeyName("email") == "users.email";
    NotContainsMissingChar(KeyName("email"), t, 10);
    OnlyInValue(DuplicatePrefix, v, ForKey, KeyName("email"), t);
  }

  /** A rejected duplicate email is answered with the email message exactly when the value
      does not itself contain "users.username". */
  lemma EmailDuplicateClassified(v: string)
    ensures ClassifyDuplicate(DuplicateMessage("email", v)) == Some(EmailTakenMessage)
        <==> !Contains(v, "users.username")
  {
    HasDuplicateEntry("email", v);
    HasKey("email", v);
    assert KeyName("email") == "users.email";
    UsernameKeyInEmailMessage(v);
  }

  /** The catch block of the handlers that call `error.sqlMessage.includes` unguarded
      (controllers/authController.js, controllers/usersController.js): an error without
      `sqlMessage` makes the catch block itself throw. */
  function DuplicateCatch(e: StoreError, fallback: string): (r: Outcome)
    ensures r == Unhandled <==> e.sqlMessage.None?
    ensures r.Sent? ==> r.status == 400 || r == Sent(500, MsgError(fallback, e.message))
    ensures r.Sent? && r.status == 400 ==> Contains(e.sqlMessage.value, "Duplicate entry")
  {
    match e.sqlMessage
    case None => Unhandled
    case Some(m) =>
      match ClassifyDuplicate(m)
      case Some(text) => Sent(400, Message(text))
      case None => Sent(500, MsgError(fallback, e.message))
  }

  /** The catch block of controllers/userRegister.js, which classifies only when
      `sqlMessage` is set and otherwise answers 500. */
  function GuardedDuplicateCatch(e: StoreError, fallback: string): (r: Outcome)
    ensures r.Sent?
    ensures e.sqlMessage.None? ==> r == Sent(500, MsgError(fallback, e.message))
    ensures e.sqlMessage.Some? ==> r == DuplicateCatch(e, fallback)
  {
    if e.sqlMessage.Some? then DuplicateCatch(e, fallback) else Sent(500, MsgError(fallback, e.message))
  }

  /** A rejected duplicate username always gets the username answer. */
  lemma DuplicateCatchUsername(v: string, fallback: string)
    ensures DuplicateCatch(DuplicateError("username", v), fallback) == Sent(400, Message(UsernameTakenMessage))
  {
    UsernameDuplicateClassified(v);
  }

  /** A rejected duplicate email gets the email answer unless the value contains
      "users.username", in which case it gets the username answer. */
  lemma DuplicateCatchEmail(v: string, fallback: string)
    ensures DuplicateCatch(DuplicateError("email", v), fallback) ==
      if Contains(v, "users.username") then Sent(400, Message(UsernameTakenMessage)) else Sent(400, Message(EmailTakenMessage))
  {
    HasDuplicateEntry("email", v);
    EmailDuplicateClassified(v);
    UsernameKeyInEmailMessage(v);
  }

  /** A store error without the "Duplicate entry" text is never taken for a duplicate. */
  lemma OtherErrorsFallThrough(m: string)
    requires !Contains(m, "Duplicate entry")
    ensures ClassifyDuplicate(m) == None
  {
  }

  /** The discrepancy: a duplicate email whose value contains "users.username" gets the
      username message. */
  lemma EmailDuplicateMisclassified()
    ensures ClassifyDuplicate(DuplicateMessage("email", "users.username@x.co")) == Some(UsernameTakenMessage)
  {
    HasDuplicateEntry("email", "users.username@x.co");
    var v := "users.username@x.co";
    assert v[0..|"users.username"|] == "users.username";
    assert OccursAt(v, "users.username", 0);
    UsernameKeyInEmailMessage(v);
  }

  predicate EndsWith(s: string, t: string)
  {
    |t| <= |s| && s[|s| - |t|..] == t
  }

  /** The classification by the key the server names, which ends the message: the username
      message for `users.username`, the email message for `users.email`. */
  function ClassifyByKey(e: StoreError): (r: Option<string>)
    ensures r.Some? ==> e.code == "ER_DUP_ENTRY" && e.sqlMessage.Some?
    ensures r == Some(UsernameTakenMessage) ==> EndsWith(e.sqlMessage.value, "'users.username'")
    ensures r == Some(EmailTakenMessage) ==> EndsWith(e.sqlMessage.value, "'users.email'")
  {
    if e.code == "ER_DUP_ENTRY" && e.sqlMessage.Some? && EndsWith(e.sqlMessage.value, "'users.username'") then
      Some(UsernameTakenMessage)
    else if e.code == "ER_DUP_ENTRY" && e.sqlMessage.Some? && EndsWith(e.sqlMessage.value, "'users.email'") then
      Some(EmailTakenMessage)
    else None
  }

  /** The message ends with the quoted key name. */
  lemma EndsWithKey(col: string, v: string)
    ensures EndsWith(DuplicateMessage(col, v), "'" + KeyName(col) + "'")
  {
    var m := DuplicateMessage(col, v);
    var k := "'" + KeyName(col) + "'";
    assert m == DuplicatePrefix + "'" + v + "'" + ForKey + k;
  }

  /** The classification by key answers a duplicate username with the username message. */
  lemma ClassifyByKeyUsername(v: string)
    ensures ClassifyByKey(DuplicateError("username", v)) == Some(UsernameTakenMessage)
  {
    EndsWithKey("username", v);
    assert "'" + KeyName("username") + "'" == "'users.username'";
  }

  /** The classification by key answers a duplicate email with the email message, whatever
      the value. */
  lemma ClassifyByKeyEmail(v: string)
    ensures ClassifyByKey(DuplicateError("email", v)) == Some(EmailTakenMessage)
  {
    var m := DuplicateMessage("email", v);
    EndsWithKey("email", v);
    assert "'" + KeyName("email") + "'" == "'users.email'";
    var pre := DuplicatePrefix + "'" + v + "'";
    assert m == pre + ForKey + "'users.email'";
    assert m[|m| - 16] == ForKey[6] == 'e';
    assert m[|m| - 16..][0] == 'e';
  }
}
