/**
 * UILogin: the case-insensitive duplicate scan correoExiste and the guard
 * it places in front of ControladorHelpDesk.registrarUsuario.
 */
module LoginScreen {
  import opened Outcomes
  import opened Text
  import opened HexDigest
  import opened HelpDeskController

  /** Some stored user's address equals `email` ignoring case. */
  predicate EmailRegisteredIgnoringCase(users: seq<User>, email: string)
  {
    exists k :: 0 <= k < |users| && EqualsIgnoreCase(users[k].email, email)
  }

  /** No two stored users share an address, ignoring case. */
  predicate EmailsDistinctIgnoringCase(users: seq<User>)
  {
    forall i, j :: 0 <= i < j < |users| ==> !EqualsIgnoreCase(users[i].email, users[j].email)
  }

  /** correoExiste: scans the users in order and stops at the first match. */
  method EmailExists(c: Controller, email: string) returns (found: bool)
    ensures found <==> EmailRegisteredIgnoringCase(c.users, email)
  {
    var users := c.users;
    for i := 0 to |users|
      invariant forall k :: 0 <= k < i ==> !EqualsIgnoreCase(users[k].email, email)
    {
      if EqualsIgnoreCase(users[i].email, email) {
        return true;
      }
    }
    return false;
  }

  /**
   * registrarUsuario of the login screen, given the values its prompts
   * returned: registers through the controller only when no stored
   * address equals `email` ignoring case.
   */
  method RegisterUser(c: Controller, name: string, email: string, phone: string, role: string, password: string)
    returns (registered: bool)
    requires c.Valid()
    modifies c
    ensures c.Valid()
    ensures registered <==> !EmailRegisteredIgnoringCase(old(c.users), email)
    ensures registered ==> c.users == old(c.users) + [User(name, Hex(c.digest(password)), role, email, phone)]
    ensures !registered ==> c.users == old(c.users)
    ensures c.departments == old(c.departments) && c.tickets == old(c.tickets)
    ensures c.emotionWords == old(c.emotionWords) && c.technicalWords == old(c.technicalWords)
    ensures EmailRegisteredIgnoringCase(c.users, email)
    ensures EmailsDistinctIgnoringCase(old(c.users)) ==> EmailsDistinctIgnoringCase(c.users)
  {
    var taken := EmailExists(c, email);
    if taken {
      return false;
    }
    c.RegisterUser(name, password, role, email, phone);
    assert c.users[|c.users| - 1].email == email;
    return true;
  }

  /** Stored addresses are all in lower case. */
  predicate StoredEmailsLowerCase(users: seq<User>)
  {
    forall k :: 0 <= k < |users| ==> IsLowerCase(users[k].email)
  }

  /**
   * When every stored address is in lower case, the controller's
   * uniqueness check and the login screen's scan refuse the same addresses.
   */
  lemma UniquenessChecksAgree(users: seq<User>, email: string)
    requires StoredEmailsLowerCase(users)
    ensures ValidateEmailUnique(users, email) == Fail(EmailDuplicate) <==> EmailRegisteredIgnoringCase(users, email)
  {
    forall k | 0 <= k < |users|
      ensures users[k].email == ToLower(email) <==> EqualsIgnoreCase(users[k].email, email)
    {
      ToLowerIsLowerCase(users[k].email);
      EqualsIgnoreCaseIffSameLower(users[k].email, email);
      ToLowerIsLowerCase(email);
    }
  }

  /**
   * With an address stored in mixed case, re-entering it verbatim passes
   * the controller's check, which compares the lower-cased address exactly,
   * while the login screen's scan catches it.
   */
  lemma UniquenessChecksDisagreeOnMixedCase(users: seq<User>, email: string)
    requires email == "Ana@uc.cr" && users == [User("Ana", "", "estudiante", email, "88888888")]
    ensures EmailRegisteredIgnoringCase(users, email)
    ensures ValidateEmailUnique(users, email) == Pass
  {
    assert EqualsIgnoreCase(users[0].email, email);
    assert ToLower(email)[0] == 'a';
  }
}
