/**
 * ControladorHelpDesk: the field validators, the hex rendering of the
 * password digest, and the append-only lists of users, departments,
 * tickets and dictionary entries that the controller registers into.
 */
module HelpDeskController {
  import opened Outcomes
  import opened Text
  import opened HexDigest
  import opened EmailPattern

  datatype User = User(name: string, password: string, role: string, email: string, phone: string)

  datatype Department = Department(name: string, description: string, email: string, phoneExtension: string)

  datatype Ticket = Ticket(subject: string, description: string, user: User, status: string, department: Department)

  /**
   * A dictionary entity as the controller constructs it, arguments in
   * constructor order: `first` receives the controller's `palabra`
   * parameter, `second` its `emocion` or `categoria` parameter.
   */
  datatype DictionaryEntry = DictionaryEntry(first: string, second: string)

  // ------------------------------------------------------------ validators

  /** validadNombre: the trimmed name must be non-empty and 2 to 50 UTF-16 units long. */
  function ValidateName(name: string): (r: Outcome)
    ensures r == Pass <==> 2 <= Utf16Length(Trim(name)) <= 50
    ensures r == Fail(NameRequired) <==> Trim(name) == []
    ensures r == Fail(NameLength) <==> Utf16Length(Trim(name)) == 1 || Utf16Length(Trim(name)) > 50
  {
    if Trim(name) != [] then
      if Utf16Length(Trim(name)) < 2 || Utf16Length(Trim(name)) > 50 then Fail(NameLength) else Pass
    else
      Fail(NameRequired)
  }

  /** existeCorreo of the user store, read as exact comparison with a stored address. */
  predicate EmailStored(users: seq<User>, email: string)
  {
    exists k :: 0 <= k < |users| && users[k].email == email
  }

  /** A single emoji is two UTF-16 units, so validadNombre lets it through as a two-char name. */
  lemma EmojiNamePasses(name: string)
    requires name == "\U{1F600}"
    ensures ValidateName(name) == Pass
  {
    EmojiIsTwoUnits(name);
    assert SkipLeading(name, 0) == 0;
    assert SkipTrailing(name, 0, 1) == 1;
    assert Trim(name) == name;
  }

  /** validarCorreoUnico with the user list as its store: the lower-cased address must not be stored. */
  function ValidateEmailUnique(users: seq<User>, email: string): (r: Outcome)
    ensures r == Pass <==> !EmailStored(users, ToLower(email))
    ensures r != Pass ==> r == Fail(EmailDuplicate)
  {
    if EmailStored(users, ToLower(email)) then Fail(EmailDuplicate) else Pass
  }

  /**
   * validarCorreo with a store: format first, then uniqueness, then the
   * length limit, so a well-formed duplicate reports the duplicate
   * whatever its length.
   */
  function ValidateEmail(users: seq<User>, email: string): (r: Outcome)
    ensures r == Pass <==> IsWellFormedEmail(email) && !EmailStored(users, ToLower(email)) && Utf16Length(email) <= 100
    ensures r == Fail(EmailFormat) <==> !IsWellFormedEmail(email)
    ensures r == Fail(EmailDuplicate) <==> IsWellFormedEmail(email) && EmailStored(users, ToLower(email))
    ensures r == Fail(EmailTooLong) <==> IsWellFormedEmail(email) && !EmailStored(users, ToLower(email)) && Utf16Length(email) > 100
  {
    if !IsWellFormedEmail(email) then Fail(EmailFormat)
    else if ValidateEmailUnique(users, email).Fail? then ValidateEmailUnique(users, email)
    else if Utf16Length(email) > 100 then Fail(EmailTooLong)
    else Pass
  }

  /**
   * validarCorreo as the class runs it. `repositorio` is the store
   * validarCorreoUnico dereferences; the controller never assigns it, so
   * it is always None and every well-formed address ends in a
   * NullPointerException.
   */
  function ValidateEmailAsWritten(repositorio: Option<seq<User>>, email: string): (r: Outcome)
    ensures repositorio.None? ==> r != Pass
    ensures !IsWellFormedEmail(email) ==> r == Fail(EmailFormat)
    ensures repositorio.None? && IsWellFormedEmail(email) ==> r == Fail(NullPointer)
    ensures repositorio.Some? ==> r == ValidateEmail(repositorio.value, email)
  {
    if !IsWellFormedEmail(email) then Fail(EmailFormat)
    else if repositorio.None? then Fail(NullPointer)
    else if ValidateEmailUnique(repositorio.value, email).Fail? then Fail(EmailDuplicate)
    else if Utf16Length(email) > 100 then Fail(EmailTooLong)
    else Pass
  }

  /** With the unassigned store, an address an empty store accepts is refused. */
  lemma NullRepositoryRefusesValidAddress()
    ensures ValidateEmail([], "ana@uc.cr") == Pass
    ensures ValidateEmailAsWritten(None, "ana@uc.cr") == Fail(NullPointer)
  {
    SampleAccepted();
  }

  // --------------------------------------------------------------- hashing

  /** The form of every stored password: 64 lower-case hex chars, the rendering of a SHA-256 digest. */
  predicate IsPasswordDigest(s: string) { |s| == 64 && IsLowerHex(s) }

  // ------------------------------------------------------------ the store

  /**
   * The controller and the lists its business layer keeps. `digest` is
   * MessageDigest "SHA-256" applied to password.getBytes().
   */
  class Controller {
    const digest: string -> seq<JavaByte>
    var users: seq<User>
    var departments: seq<Department>
    var tickets: seq<Ticket>
    var emotionWords: seq<DictionaryEntry>
    var technicalWords: seq<DictionaryEntry>

    /** SHA-256 yields 32 bytes, and every stored password has the form of a rendered digest. */
    ghost predicate Valid()
      reads this
    {
      && (forall p :: |digest(p)| == 32)
      && (forall k :: 0 <= k < |users| ==> IsPasswordDigest(users[k].password))
    }

    /** Every ticket points at a user and a department held in the lists. */
    ghost predicate TicketsReferToStore()
      reads this
    {
      forall k :: 0 <= k < |tickets| ==> tickets[k].user in users && tickets[k].department in departments
    }

    constructor (digest: string -> seq<JavaByte>)
      requires forall p :: |digest(p)| == 32
      ensures Valid() && TicketsReferToStore()
      ensures this.digest == digest
      ensures users == [] && departments == [] && tickets == []
      ensures emotionWords == [] && technicalWords == []
    {
      this.digest := digest;
      users, departments, tickets := [], [], [];
      emotionWords, technicalWords := [], [];
    }

    /** hashPassword: the digest of the password, rendered byte by byte with %02x. */
    method HashPassword(password: string) returns (h: string)
      requires Valid()
      ensures h == Hex(digest(password))
      ensures IsPasswordDigest(h)
    {
      h := EncodeHex(digest(password));
    }

    /** registrarUsuario: appends one user carrying the hashed password; it validates nothing. */
    method RegisterUser(name: string, password: string, role: string, email: string, phone: string)
      requires Valid()
      modifies this
      ensures Valid()
      ensures users == old(users) + [User(name, Hex(digest(password)), role, email, phone)]
      ensures departments == old(departments) && tickets == old(tickets)
      ensures emotionWords == old(emotionWords) && technicalWords == old(technicalWords)
      ensures old(TicketsReferToStore()) ==> TicketsReferToStore()
    {
      var hashed := HashPassword(password);
      users := users + [User(name, hashed, role, email, phone)];
    }

    /** registrarDepartamento: appends one department unconditionally. */
    method RegisterDepartment(name: string, description: string, email: string, phoneExtension: string)
      requires Valid()
      modifies this
      ensures Valid()
      ensures departments == old(departments) + [Department(name, description, email, phoneExtension)]
      ensures users == old(users) && tickets == old(tickets)
      ensures emotionWords == old(emotionWords) && technicalWords == old(technicalWords)
      ensures old(TicketsReferToStore()) ==> TicketsReferToStore()
    {
      departments := departments + [Department(name, description, email, phoneExtension)];
    }

    /**
     * registrarTicket: appends one ticket when both references are
     * non-null; otherwise changes nothing and raises nothing.
     */
    method RegisterTicket(subject: string, description: string, user: Option<User>, status: string, department: Option<Department>)
      requires Valid()
      modifies this
      ensures Valid()
      ensures user.Some? && department.Some? ==>
                tickets == old(tickets) + [Ticket(subject, description, user.value, status, department.value)]
      ensures user.None? || department.None? ==> tickets == old(tickets)
      ensures users == old(users) && departments == old(departments)
      ensures emotionWords == old(emotionWords) && technicalWords == old(technicalWords)
      ensures (&& old(TicketsReferToStore())
               && (user.Some? ==> user.value in users)
               && (department.Some? ==> department.value in departments)) ==> TicketsReferToStore()
    {
      if user.Some? && department.Some? {
        tickets := tickets + [Ticket(subject, description, user.value, status, department.value)];
      }
    }

    /** agregarPalabraEmocion(emocion, palabra): appends one entry, duplicates allowed. */
    method AddEmotionWord(emocion: string, palabra: string)
      requires Valid()
      modifies this
      ensures Valid()
      ensures emotionWords == old(emotionWords) + [DictionaryEntry(palabra, emocion)]
      ensures users == old(users) && departments == old(departments) && tickets == old(tickets)
      ensures technicalWords == old(technicalWords)
    {
      emotionWords := emotionWords + [DictionaryEntry(palabra, emocion)];
    }

    /** agregarPalabraTecnica(categoria, palabra): appends one entry, duplicates allowed. */
    method AddTechnicalWord(categoria: string, palabra: string)
      requires Valid()
      modifies this
      ensures Valid()
      ensures technicalWords == old(technicalWords) + [DictionaryEntry(palabra, categoria)]
      ensures users == old(users) && departments == old(departments) && tickets == old(tickets)
      ensures emotionWords == old(emotionWords)
    {
      technicalWords := technicalWords + [DictionaryEntry(palabra, categoria)];
    }
  }
}
