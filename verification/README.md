# HelpDesk U registration rules and record store, in Dafny

HelpDesk U is a university help-desk record keeper. It registers users,
departments, tickets and two vocabularies (emotional and technical words).
Everything lives in memory. This project models the part of it that holds
rules:

- the field validators of `ControladorHelpDesk`: `validadNombre`, `validarCorreo`
  with its regular expression, and `validarCorreoUnico`;
- the hex rendering of the SHA-256 password digest in `hashPassword`;
- the append-only lists that `registrarUsuario`, `registrarDepartamento`,
  `registrarTicket`, `agregarPalabraEmocion` and `agregarPalabraTecnica` grow;
- the login screen's case-insensitive duplicate scan `correoExiste` and the guard it
  places in front of registration;
- the accept-conditions of the re-prompt loops `solicitarNombre`, `solicitarCorreo`,
  `solicitarRol`, `solicitarPassword` and `solicitarTelefono`;
- the four copies of `truncarTexto` and the index checks of `UITicket.registrarTicket`.

Modules, one per source file or shared concept:

| module | file | models |
|---|---|---|
| `Outcomes` | `outcomes.dfy` | null references as `Option`, exceptions as `Outcome`/`Result` values |
| `Text` | `text.dfy` | `trim()`, ASCII `toLowerCase()`/`equalsIgnoreCase()`, `replaceAll("[^\\d]", "")`, `matches(".*[C].*")` |
| `HexDigest` | `hex.dfy` | the `%02x` loop over the digest bytes, with signed Java bytes |
| `EmailPattern` | `email_pattern.dfy` | the anchored pattern `^[A-Za-z0-9+_.-]+@[A-Za-z0-9.-]+\.[A-Za-z]{2,}$` |
| `HelpDeskController` | `controller.dfy` | `ControladorHelpDesk`: validators and the `Controller` class with its lists |
| `Prompts` | `prompts.dfy` | the accept-conditions shared by `UILogin` and `UI.UIUsuario` |
| `LoginScreen` | `login_screen.dfy` | `UILogin.correoExiste` and the registration guard |
| `MenuScreens` | `menu_screens.dfy` | `truncarTexto` copies and `UITicket.registrarTicket` |

How the Java is represented:

- A validator that throws is a function returning `Outcome`: `Pass`, or `Fail` with
  the reason the exception message gives.
- SHA-256 over `password.getBytes()` is a library call. The `Controller` holds it as the
  constant `digest`, and `Valid()` requires that it always yields 32 bytes.
- A Java `byte` is the signed `JavaByte`. `%02x` prints a negative byte plus 256.
- `String.matches(".*X.*")` is modelled exactly. A Java `.` does not match a line
  terminator, so such a pattern fails on any text that holds one. Lines read by
  `Scanner.nextLine()` hold none. The `...OnOneLine` lemmas give the plain
  "contains a char of X" reading for such lines.
- The prompt predicates of `UILogin` (`UILogin.java:118-199`) and of `UI.UIUsuario`
  (`UI.java:152-235`) are textually identical, so each is defined once in `Prompts`.

The code departs from the intended design in several places. The model follows the code:

- `ControladorHelpDesk.registrarUsuario` never calls the validators.
- Only the login screen checks for a duplicate address before registering.
  `UIUsuario.registrarUsuario` (`UI.java:100-119`) calls the controller directly.
- `validarCorreo` checks the length of the untrimmed address.
- The roles are `estudiante`, `funcionario` and `administrador`.

## Model

| member | source | states |
|---|---|---|
| `Text.Utf16Length` | UIHelpDeskU/src/cr/ac/ucenfotec/helpdesku/tl/ControladorHelpDesk.java:72 | `String.length()`: between one and two UTF-16 units per char |
| `Text.Utf16LengthOfBmp` | UIHelpDeskU/src/cr/ac/ucenfotec/helpdesku/tl/ControladorHelpDesk.java:72 | on text inside the Basic Multilingual Plane, `length()` equals the number of chars |
| `Text.EmojiIsTwoUnits` | UIHelpDeskU/src/cr/ac/ucenfotec/helpdesku/tl/ControladorHelpDesk.java:72 | U+1F600 is one char but two UTF-16 units |
| `Text.Trim` | UIHelpDeskU/src/cr/ac/ucenfotec/helpdesku/tl/ControladorHelpDesk.java:70-71 | the two loops of `trim()`: the result is no longer than the input and neither starts nor ends with a char ≤ U+0020 |
| `Text.TrimSplitsInput` | UIHelpDeskU/src/cr/ac/ucenfotec/helpdesku/tl/ControladorHelpDesk.java:70-71 | `trim()` removes exactly a run of chars ≤ U+0020 at each end: the input is blanks + trimmed text + blanks |
| `Text.TrimIdempotent` | UIHelpDeskU/src/cr/ac/ucenfotec/helpdesku/tl/ControladorHelpDesk.java:70-71 | trimming a trimmed string changes nothing |
| `Text.ToLower` | UIHelpDeskU/src/cr/ac/ucenfotec/helpdesku/ui/UILogin.java:150 | `toLowerCase()`: same length, each char mapped by the ASCII lower-case map |
| `Text.ToLowerIsLowerCase` | UIHelpDeskU/src/cr/ac/ucenfotec/helpdesku/ui/UILogin.java:150 | `toLowerCase()` yields a lower-case string, fixes exactly the lower-case strings, and is idempotent |
| `Text.EqualsIgnoreCaseIffSameLower` | UIHelpDeskU/src/cr/ac/ucenfotec/helpdesku/ui/UILogin.java:99 | `equalsIgnoreCase` holds iff both strings lower-case to the same string |
| `Text.EqualsIgnoreCase` | UIHelpDeskU/src/cr/ac/ucenfotec/helpdesku/ui/UILogin.java:99 | `equalsIgnoreCase`: same length and the per-char test of `regionMatches`; partner `EqualsIgnoreCaseIffSameLower` |
| `Text.Digits` | UIHelpDeskU/src/cr/ac/ucenfotec/helpdesku/ui/UILogin.java:193 | `replaceAll("[^\\d]", "")`: a string of ASCII digits, no longer than the input |
| `Text.DigitsCountEveryDigit` | UIHelpDeskU/src/cr/ac/ucenfotec/helpdesku/ui/UILogin.java:193 | each digit is kept exactly as often as the input holds it, and no other char is kept |
| `Text.TrimKeepsDigits` | UIHelpDeskU/src/cr/ac/ucenfotec/helpdesku/ui/UILogin.java:191-193 | removing the non-digits of the trimmed line gives the same digits as for the raw line |
| `Text.MatchesSomewhere` | UIHelpDeskU/src/cr/ac/ucenfotec/helpdesku/ui/UILogin.java:120 | `matches(".*[C].*")`: one char of C with no line terminator on either side; partners `MatchesSomewhereOnOneLine` and `LineTerminatorDefeatsMatch` |
| `Text.MatchesSomewhereOnOneLine` | UIHelpDeskU/src/cr/ac/ucenfotec/helpdesku/ui/UILogin.java:120 | on a text with no line terminator, `.*[C].*` matches iff some char is in C |
| `Text.LineTerminatorDefeatsMatch` | UIHelpDeskU/src/cr/ac/ucenfotec/helpdesku/ui/UILogin.java:169-172 | a line terminator anywhere makes `.*[C].*` fail for any class C without terminators |
| `HexDigest.ByteToHex` | UIHelpDeskU/src/cr/ac/ucenfotec/helpdesku/tl/ControladorHelpDesk.java:119 | `String.format("%02x", b)`: two lower-case hex digits; partner `ByteRoundTrip` |
| `HexDigest.Hex` | UIHelpDeskU/src/cr/ac/ucenfotec/helpdesku/tl/ControladorHelpDesk.java:117-121 | the StringBuilder's contents: 2 lower-case hex chars per byte; partner `UnhexHex` |
| `HexDigest.EncodeHex` | UIHelpDeskU/src/cr/ac/ucenfotec/helpdesku/tl/ControladorHelpDesk.java:117-121 | the StringBuilder loop yields `Hex(bytes)`: exactly 2 lower-case hex chars per byte, in byte order |
| `HexDigest.ByteRoundTrip` | UIHelpDeskU/src/cr/ac/ucenfotec/helpdesku/tl/ControladorHelpDesk.java:119 | the two digits `%02x` prints for a signed byte, read back, give that byte |
| `HexDigest.UnhexHex` | UIHelpDeskU/src/cr/ac/ucenfotec/helpdesku/tl/ControladorHelpDesk.java:117-121 | reading the rendered digest two digits at a time gives the signed bytes back |
| `HexDigest.HexInjective` | UIHelpDeskU/src/cr/ac/ucenfotec/helpdesku/tl/ControladorHelpDesk.java:117-121 | two digests render to the same string iff they are the same digest (deterministic and injective) |
| `EmailPattern.IsWellFormedEmail` | UIHelpDeskU/src/cr/ac/ucenfotec/helpdesku/tl/ControladorHelpDesk.java:86 | the recognizer for the `matches` call, checked against the pattern by `WellFormedIffPatternMatches` |
| `EmailPattern.WellFormedIffPatternMatches` | UIHelpDeskU/src/cr/ac/ucenfotec/helpdesku/tl/ControladorHelpDesk.java:86 | the recognizer accepts a string iff it splits as L '@' D '.' T: L non-empty over `[A-Za-z0-9+_.-]`, D non-empty over `[A-Za-z0-9.-]`, T two or more ASCII letters to the end |
| `EmailPattern.WellFormedHasOneAt` | UIHelpDeskU/src/cr/ac/ucenfotec/helpdesku/tl/ControladorHelpDesk.java:86 | an accepted address has exactly one '@' |
| `EmailPattern.WellFormedLengthIsChars` | UIHelpDeskU/src/cr/ac/ucenfotec/helpdesku/tl/ControladorHelpDesk.java:86-90 | a matching address is ASCII, so its `length()` is its number of chars |
| `EmailPattern.WellFormedIsAtLeastSix` | UIHelpDeskU/src/cr/ac/ucenfotec/helpdesku/tl/ControladorHelpDesk.java:86 | an accepted address has at least 6 chars |
| `EmailPattern.SampleAccepted` | UIHelpDeskU/src/cr/ac/ucenfotec/helpdesku/tl/ControladorHelpDesk.java:86 | `ana@uc.cr` matches |
| `EmailPattern.SampleShortSuffixRefused` | UIHelpDeskU/src/cr/ac/ucenfotec/helpdesku/tl/ControladorHelpDesk.java:86 | `ana@x.c` does not match: the final label needs 2 letters |
| `EmailPattern.SampleSecondAtRefused` | UIHelpDeskU/src/cr/ac/ucenfotec/helpdesku/tl/ControladorHelpDesk.java:86 | `a@b@x.cr` does not match |
| `HelpDeskController.ValidateName` | UIHelpDeskU/src/cr/ac/ucenfotec/helpdesku/tl/ControladorHelpDesk.java:69-78 | passes iff the trimmed name has 2 to 50 UTF-16 units; "obligatorio" iff it trims to empty; the length error iff it trims to 1 or more than 50 units |
| `HelpDeskController.EmojiNamePasses` | UIHelpDeskU/src/cr/ac/ucenfotec/helpdesku/tl/ControladorHelpDesk.java:72 | a name made of one U+1F600 is two units long and passes |
| `HelpDeskController.ValidateEmailUnique` | UIHelpDeskU/src/cr/ac/ucenfotec/helpdesku/tl/ControladorHelpDesk.java:101-105 | fails, with the duplicate error, iff the lower-cased address is stored |
| `HelpDeskController.ValidateEmail` | UIHelpDeskU/src/cr/ac/ucenfotec/helpdesku/tl/ControladorHelpDesk.java:85-94 | format error iff the pattern fails; else duplicate error iff stored, whatever the length; else too-long error iff over 100 UTF-16 units; else pass |
| `HelpDeskController.ValidateEmailAsWritten` | UIHelpDeskU/src/cr/ac/ucenfotec/helpdesku/tl/ControladorHelpDesk.java:27-105 | a malformed address gets the format error, store or no store; with the never-assigned store, no address passes and every well-formed one ends in a NullPointerException; with a store, it is `ValidateEmail` |
| `HelpDeskController.NullRepositoryRefusesValidAddress` | UIHelpDeskU/src/cr/ac/ucenfotec/helpdesku/tl/ControladorHelpDesk.java:101-105 | `ana@uc.cr` passes against an empty store but throws against the unassigned one |
| `HelpDeskController.Controller.constructor` | UIHelpDeskU/src/cr/ac/ucenfotec/helpdesku/tl/ControladorHelpDesk.java:32-34 | starts with every list empty and the invariants established |
| `HelpDeskController.Controller.HashPassword` | UIHelpDeskU/src/cr/ac/ucenfotec/helpdesku/tl/ControladorHelpDesk.java:113-125 | returns the hex rendering of the password's digest: 64 lower-case hex chars |
| `HelpDeskController.Controller.RegisterUser` | UIHelpDeskU/src/cr/ac/ucenfotec/helpdesku/tl/ControladorHelpDesk.java:47-51 | appends exactly one user whose password field is the rendered digest, with no validation; no other list changes; every stored password keeps the digest form |
| `HelpDeskController.Controller.RegisterDepartment` | UIHelpDeskU/src/cr/ac/ucenfotec/helpdesku/tl/ControladorHelpDesk.java:146-149 | appends exactly one department unconditionally; no other list changes |
| `HelpDeskController.Controller.RegisterTicket` | UIHelpDeskU/src/cr/ac/ucenfotec/helpdesku/tl/ControladorHelpDesk.java:171-176 | with both references non-null, appends exactly one ticket with the given fields; with either null, nothing changes and nothing is raised |
| `HelpDeskController.Controller.AddEmotionWord` | UIHelpDeskU/src/cr/ac/ucenfotec/helpdesku/tl/ControladorHelpDesk.java:195-198 | appends exactly one entry, built from the arguments by position; duplicates allowed; no other list changes |
| `HelpDeskController.Controller.AddTechnicalWord` | UIHelpDeskU/src/cr/ac/ucenfotec/helpdesku/tl/ControladorHelpDesk.java:215-218 | appends exactly one entry, built from the arguments by position; duplicates allowed; no other list changes |
| `LoginScreen.EmailExists` | UIHelpDeskU/src/cr/ac/ucenfotec/helpdesku/ui/UILogin.java:96-104 | returns true iff some stored user's address equals the probe ignoring case |
| `LoginScreen.RegisterUser` | UIHelpDeskU/src/cr/ac/ucenfotec/helpdesku/ui/UILogin.java:52-59 | registers iff no stored address equals the new one ignoring case; otherwise the user list is unchanged; afterwards the address is registered, and case-insensitive distinctness of addresses is preserved |
| `LoginScreen.UniquenessChecksAgree` | UIHelpDeskU/src/cr/ac/ucenfotec/helpdesku/ui/UILogin.java:96-104 | when every stored address is lower case, `validarCorreoUnico` refuses exactly the addresses `correoExiste` finds |
| `LoginScreen.UniquenessChecksDisagreeOnMixedCase` | UIHelpDeskU/src/cr/ac/ucenfotec/helpdesku/ui/UILogin.java:99 | an address stored as `Ana@uc.cr` is found by `correoExiste` but passes `validarCorreoUnico` |
| `Prompts.AcceptName` | UIHelpDeskU/src/cr/ac/ucenfotec/helpdesku/ui/UILogin.java:118-125 | an accepted name is the trimmed line and has 2 to 50 UTF-16 units |
| `Prompts.AcceptNameOnOneLine` | UIHelpDeskU/src/cr/ac/ucenfotec/helpdesku/ui/UILogin.java:118-120 | for a line without terminators: accepted iff the trimmed line has 2 to 50 UTF-16 units and no ASCII digit |
| `Prompts.AcceptEmail` | UIHelpDeskU/src/cr/ac/ucenfotec/helpdesku/ui/UILogin.java:134-141 | accepted iff the line is 6 to 100 UTF-16 units long and holds '@' and '.'; the value returned is the untrimmed line |
| `Prompts.WellFormedPassesPrompt` | UIHelpDeskU/src/cr/ac/ucenfotec/helpdesku/ui/UILogin.java:134-136 | every address the controller's pattern accepts with at most 100 chars passes the prompt |
| `Prompts.PromptAcceptsMalformed` | UIHelpDeskU/src/cr/ac/ucenfotec/helpdesku/ui/UILogin.java:136 | `@@@@.@` passes the prompt but not the controller's pattern |
| `Prompts.AcceptRole` | UIHelpDeskU/src/cr/ac/ucenfotec/helpdesku/ui/UILogin.java:150-157 | an accepted role is the lower-cased line, is one of the three roles, and is lower case |
| `Prompts.RolesAreLowerCase` | UIHelpDeskU/src/cr/ac/ucenfotec/helpdesku/ui/UILogin.java:152 | the three role names are fixed by `toLowerCase()` |
| `Prompts.AcceptRoleIffEqualsIgnoringCase` | UIHelpDeskU/src/cr/ac/ucenfotec/helpdesku/ui/UILogin.java:150-152 | a role is accepted iff the line equals `estudiante`, `funcionario` or `administrador` ignoring case |
| `Prompts.AcceptPassword` | UIHelpDeskU/src/cr/ac/ucenfotec/helpdesku/ui/UILogin.java:166-182 | an accepted password is the trimmed line and has at least 8 UTF-16 units |
| `Prompts.AcceptPasswordOnOneLine` | UIHelpDeskU/src/cr/ac/ucenfotec/helpdesku/ui/UILogin.java:166-172 | for a line without terminators: accepted iff the trimmed line has ≥ 8 UTF-16 units, an upper-case letter, a lower-case letter, a digit and one of the listed symbols |
| `Prompts.TrimOfUnpadded` | UIHelpDeskU/src/cr/ac/ucenfotec/helpdesku/ui/UILogin.java:166 | a line with no blank at either end is its own trimmed form |
| `Prompts.SampleStrongPassword` | UIHelpDeskU/src/cr/ac/ucenfotec/helpdesku/ui/UILogin.java:168-172 | `Password1!` is accepted |
| `Prompts.SampleEmojiPassword` | UIHelpDeskU/src/cr/ac/ucenfotec/helpdesku/ui/UILogin.java:168 | `Aa1!` followed by two U+1F600 is six chars but eight units, and is accepted |
| `Prompts.SampleLowerCasePasswordRefused` | UIHelpDeskU/src/cr/ac/ucenfotec/helpdesku/ui/UILogin.java:169 | `alllower1!` is refused for lack of an upper-case letter |
| `Prompts.AcceptPhone` | UIHelpDeskU/src/cr/ac/ucenfotec/helpdesku/ui/UILogin.java:190-199 | accepted iff the line holds exactly 8 ASCII digits; the value returned is the trimmed line, not the digits |
| `Prompts.SampleHyphenatedPhone` | UIHelpDeskU/src/cr/ac/ucenfotec/helpdesku/ui/UILogin.java:193-194 | `1234-5678` is accepted as it stands |
| `Prompts.SampleShortPhoneRefused` | UIHelpDeskU/src/cr/ac/ucenfotec/helpdesku/ui/UILogin.java:194 | `123456` is refused |
| `MenuScreens.Truncate` | UIHelpDeskU/src/cr/ac/ucenfotec/helpdesku/ui/UI.java:315-318 | the text itself when it fits; otherwise exactly `width` chars, a prefix of the text followed by "..."; never longer than `width`; throws iff the text is too long and `width` < 3 |
| `MenuScreens.TruncateIdempotent` | UIHelpDeskU/src/cr/ac/ucenfotec/helpdesku/ui/UI.java:145-150 | truncating a truncated text again changes nothing |
| `MenuScreens.TruncateNeverLengthens` | UIHelpDeskU/src/cr/ac/ucenfotec/helpdesku/ui/UI.java:145-150 | the result is never longer than the text, and is the text or ends in "..." |
| `MenuScreens.TruncateUserColumn` | UIHelpDeskU/src/cr/ac/ucenfotec/helpdesku/ui/UI.java:145-150 | the UIUsuario copy: a null text throws; otherwise `Truncate` |
| `MenuScreens.TruncateDepartmentColumn` | UIHelpDeskU/src/cr/ac/ucenfotec/helpdesku/ui/UI.java:313-319 | the UIDepartamento copy: a null text gives "N/A"; otherwise `Truncate` |
| `MenuScreens.TruncateOrEmpty` | UIHelpDeskU/src/cr/ac/ucenfotec/helpdesku/ui/UI.java:472-478 | the UIDiccionario copy, and the identical UITicket copy (`UI.java:615-621`): a null text gives ""; otherwise `Truncate` |
| `MenuScreens.CopiesDifferOnlyOnNull` | UIHelpDeskU/src/cr/ac/ucenfotec/helpdesku/ui/UI.java:313-319 | the copies agree on every non-null text; on null they throw, give "N/A" and give "" |
| `MenuScreens.TableWidthsNeverThrow` | UIHelpDeskU/src/cr/ac/ucenfotec/helpdesku/ui/UI.java:303-305 | at the widths the tables use (20, 24, 26) truncation never throws and fits the column |
| `MenuScreens.MinusOne` | UIHelpDeskU/src/cr/ac/ucenfotec/helpdesku/ui/UI.java:534 | `n - 1` on a Java int, wrapping the least int to the greatest |
| `MenuScreens.SelectIndex` | UIHelpDeskU/src/cr/ac/ucenfotec/helpdesku/ui/UI.java:534-540 | a 1-based choice is accepted iff 0 ≤ choice − 1 < size, wrap-around included, and then selects index choice − 1 |
| `MenuScreens.RegisterTicket` | UIHelpDeskU/src/cr/ac/ucenfotec/helpdesku/ui/UI.java:513-578 | a ticket is created iff both choices are in range; it carries the chosen user and department and the status "Pendiente"; otherwise nothing changes; tickets keep pointing into the lists |

## Findings

| source | as written | input that shows it | evidently intended | confidence | as-written member | corrected member |
|---|---|---|---|---|---|---|
| UIHelpDeskU/src/cr/ac/ucenfotec/helpdesku/tl/ControladorHelpDesk.java:27 | the field `repositorio` is declared but never assigned, and `validarCorreoUnico` (line 102) dereferences it | `validarCorreo("ana@uc.cr")` passes the format test, then throws a NullPointerException | a well-formed address is checked against the stored users and passes when absent | high; not executed | `HelpDeskController.ValidateEmailAsWritten` (shown by `HelpDeskController.NullRepositoryRefusesValidAddress`) | `HelpDeskController.ValidateEmail` |

## Left out

- `autenticarUsuario` (`ControladorHelpDesk.java:60-62`, `UILogin.java:106-109`) passes the plaintext password on to `GestorHelpDesk`. `GestorHelpDesk` is not part of this model, so neither is authentication.
- `obtener*`, `getUsuario` and `getDepartamento` only delegate to `GestorHelpDesk`. The model reads the `Controller`'s list fields directly.
- SHA-256 and the charset of `String.getBytes()` are library code. Both are the `digest` constant, assumed to yield 32 bytes. The `NoSuchAlgorithmException` path is not modelled.
- `HelpDeskController.ValidateEmailUnique`: `Repomemory.existeCorreo` is not part of this model. It is read as exact comparison with a stored user's address, over the controller's user list.
- Case mapping covers ASCII letters only. Unicode case folding in `toLowerCase()` and `equalsIgnoreCase()` is not modelled. `toLowerCase()` uses the default locale; the model assumes a non-Turkic one. Under a Turkish locale, `ESTUDIANTE` lowers to `estudıante` and is refused at `UILogin.java:150-152`.
- `MenuScreens.Truncate`, `MenuScreens.TruncateUserColumn`, `MenuScreens.TruncateDepartmentColumn` and `MenuScreens.TruncateOrEmpty` count length and the `substring` index in chars, not in UTF-16 units. A Dafny char cannot hold half of a surrogate pair, which Java's `substring(0, longitud - 3)` can cut. For text inside the Basic Multilingual Plane the two counts agree. The validators and prompts use `Utf16Length`, so they are exact for all text.
- Strings are never null, except for the text given to the `truncarTexto` copies. `validadNombre` tests `nombre != null` only after calling `trim()` on it, so a null name throws a NullPointerException. The model does not cover that.
- Tickets hold user and department values, not references. Object identity and aliasing are not modelled.
- The dictionary entry entities are not part of this model. Each `DictionaryEntry` records its two constructor arguments in the order the controller passes them, with no claim about which one is the word. The dictionary screens pass `(palabra, emocion)` and `(palabra, categoria)` into parameters named `(emocion, palabra)` and `(categoria, palabra)` (`UI.java:406`, `UI.java:443`).
- `UIUsuario.registrarUsuario` (`UI.java:100-119`) calls the controller with no duplicate scan. It has no member of its own: it is `Controller.RegisterUser` unchanged.
- Console I/O is not modelled: menus, `Scanner` re-prompt loops, `printf` tables and `InputMismatchException` from `nextInt()`. Each prompt function gives the outcome for one line typed.
- `MenuScreens.RegisterTicket` requires both lists to have fewer than 2^31 entries, since `List.size()` is an `int`. Its `created` result is not in the Java code: it records whether the controller was called.
