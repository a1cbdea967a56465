/**
 * UI: the four copies of truncarTexto used to fit text into table columns,
 * and the steps of UITicket.registrarTicket that pick a user and a
 * department by number before registering a ticket.
 */
module MenuScreens {
  import opened Outcomes
  import opened HelpDeskController

  // ------------------------------------------------------------ truncarTexto

  /**
   * truncarTexto on a non-null text: the text itself when it fits in
   * `width` chars, else its first width - 3 chars and "...". With a width
   * below 3, substring(0, width - 3) throws.
   */
  function Truncate(text: string, width: int): (r: Result<string>)
    ensures r.Err? <==> |text| > width && width < 3
    ensures r.Err? ==> r.error == IndexOutOfBounds
    ensures r.Ok? ==> |r.value| <= width
    ensures |text| <= width ==> r == Ok(text)
    ensures r.Ok? && |text| > width ==>
              && |r.value| == width
              && r.value[..width - 3] == text[..width - 3]
              && r.value[width - 3..] == "..."
  {
    if |text| > width then
      if width - 3 < 0 then Err(IndexOutOfBounds) else Ok(text[..width - 3] + "...")
    else Ok(text)
  }

  /** Truncating what truncation returned changes nothing. */
  lemma TruncateIdempotent(text: string, width: int)
    requires Truncate(text, width).Ok?
    ensures Truncate(Truncate(text, width).value, width) == Truncate(text, width)
  {
  }

  /** A truncated text is never longer than the text it came from. */
  lemma TruncateNeverLengthens(text: string, width: int)
    requires Truncate(text, width).Ok?
    ensures |Truncate(text, width).value| <= |text|
    ensures Truncate(text, width).value == text || Truncate(text, width).value[|Truncate(text, width).value| - 3..] == "..."
  {
  }

  /** The UIUsuario copy: it has no null guard, so a null text throws. */
  function TruncateUserColumn(text: Option<string>, width: int): (r: Result<string>)
    ensures text.None? ==> r == Err(NullPointer)
    ensures text.Some? ==> r == Truncate(text.value, width)
  {
    match text
    case None => Err(NullPointer)
    case Some(t) => Truncate(t, width)
  }

  /** The UIDepartamento copy: a null text shows as "N/A". */
  function TruncateDepartmentColumn(text: Option<string>, width: int): (r: Result<string>)
    ensures text.None? ==> r == Ok("N/A")
    ensures text.Some? ==> r == Truncate(text.value, width)
  {
    match text
    case None => Ok("N/A")
    case Some(t) => Truncate(t, width)
  }

  /** The UIDiccionario and UITicket copies, which are identical: a null text shows as "". */
  function TruncateOrEmpty(text: Option<string>, width: int): (r: Result<string>)
    ensures text.None? ==> r == Ok("")
    ensures text.Some? ==> r == Truncate(text.value, width)
  {
    match text
    case None => Ok("")
    case Some(t) => Truncate(t, width)
  }

  /** The four copies agree on every non-null text and differ only on null. */
  lemma CopiesDifferOnlyOnNull(text: Option<string>, width: int)
    ensures text.Some? ==>
              && TruncateUserColumn(text, width) == TruncateDepartmentColumn(text, width)
              && TruncateDepartmentColumn(text, width) == TruncateOrEmpty(text, width)
    ensures text.None? ==>
              && TruncateUserColumn(text, width).Err?
              && TruncateDepartmentColumn(text, width) == Ok("N/A")
              && TruncateOrEmpty(text, width) == Ok("")
  {
  }

  /** Every column width the tables use (20, 24, 26) is safe: no copy throws on a non-null text. */
  lemma TableWidthsNeverThrow(text: string, width: int)
    requires width == 20 || width == 24 || width == 26
    ensures Truncate(text, width).Ok?
    ensures |Truncate(text, width).value| <= width
  {
  }

  // ----------------------------------------------------- ticket registration

  /** A Java `int`. */
  newtype Int32 = x: int | -0x8000_0000 <= x < 0x8000_0000

  /** `n - 1` in Java `int` arithmetic: the least int wraps round to the greatest. */
  function MinusOne(n: Int32): (r: Int32)
    ensures n as int > -0x8000_0000 ==> r as int == n as int - 1
    ensures n as int == -0x8000_0000 ==> r as int == 0x7fff_ffff
  {
    if n == -0x8000_0000 then 0x7fff_ffff else n - 1
  }

  /**
   * `idx = nextInt() - 1` followed by the check `idx < 0 || idx >= size()`:
   * a 1-based choice is accepted iff it names an element of the list.
   */
  function SelectIndex(choice: Int32, size: nat): (r: Option<nat>)
    requires size < 0x8000_0000
    ensures r.Some? <==> 1 <= choice as int <= size
    ensures r.Some? ==> r.value == choice as int - 1
  {
    var idx := MinusOne(choice);
    if idx < 0 || idx as int >= size then None else Some(idx as nat)
  }

  /** The status every ticket registered from the menu starts with. */
  const Pending: string := "Pendiente"

  /**
   * UITicket.registrarTicket, given the two numbers and two lines the user
   * types: checks each list is non-empty and each choice in range, then
   * registers a "Pendiente" ticket through the controller. `created` says
   * whether the controller was called.
   */
  method RegisterTicket(c: Controller, userChoice: Int32, departmentChoice: Int32, subject: string, description: string)
    returns (created: bool)
    requires c.Valid()
    requires |c.users| < 0x8000_0000 && |c.departments| < 0x8000_0000
    modifies c
    ensures c.Valid()
    ensures created <==> 1 <= userChoice as int <= |old(c.users)| && 1 <= departmentChoice as int <= |old(c.departments)|
    ensures created ==>
              c.tickets == old(c.tickets) + [Ticket(subject, description, old(c.users)[userChoice as int - 1],
                                                    Pending, old(c.departments)[departmentChoice as int - 1])]
    ensures !created ==> c.tickets == old(c.tickets)
    ensures c.users == old(c.users) && c.departments == old(c.departments)
    ensures c.emotionWords == old(c.emotionWords) && c.technicalWords == old(c.technicalWords)
    ensures old(c.TicketsReferToStore()) ==> c.TicketsReferToStore()
  {
    var users := c.users;
    if |users| == 0 {
      return false;
    }
    var userIndex := SelectIndex(userChoice, |users|);
    if userIndex.None? {
      return false;
    }
    var user := users[userIndex.value];
    var departments := c.departments;
    if |departments| == 0 {
      return false;
    }
    var departmentIndex := SelectIndex(departmentChoice, |departments|);
    if departmentIndex.None? {
      return false;
    }
    var department := departments[departmentIndex.value];
    c.RegisterTicket(subject, description, Some(user), Pending, Some(department));
    return true;
  }
}
