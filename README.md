# age-check, modelled in Dafny

A model of the jQuery plugin `$.ageCheck(options)` in both of its versions:

- the current plugin, `src/jquery.agecheck.js`;
- the older version, `jquery.agecheck.js`, at the repository root.

The plugin shows a date-of-birth dialog. When the form is submitted, it:

1. strips the leading zeros from the day;
2. checks the day and the year against two regular expressions;
3. lists the failures;
4. compares the visitor's age with `minAge`;
5. on success, records an `ageVerified` flag in Web Storage or in a cookie.

When the flag is already set, the plugin renders nothing.

The model keeps the plugin's sequential logic. The timing, layout and browser plumbing around it are left out.

Modules, one per concern:

- `Wrappers`: `Option`.
- `Text`: the string primitives the plugin relies on. These are decimal formatting of numbers, `replace` of the first occurrence, `split`, `trim` and `startsWith`. Each comes with the lemmas that pin it down.
- `Validation`: `day.replace(/^0+/, '')`, the day pattern `^([0-9]|[12]\d|3[0-1])$`, the year pattern `^(19|20)\d{2}$`, and the ordered error list.
- `Markup`:
  - the error list that `displayErrors` builds, with a reader that takes it back apart;
  - the twelve month `<option>` entries, with a reader;
  - the fixed pieces of the dialog;
  - the page `Effect`s of an outcome.
- `Storage`: the three backends of the `storage` setting. `getStorage` is a predicate over a `Store` value. The write of `setStorage` is a function from one `Store` to the next. The exact cookie string is modelled.
- `AgeCheck`: the current plugin.
  - `Settings` and its `Defaults`, as merged from `src/jquery.agecheck.js:13-32`.
  - `BuildHtml`: the `+=` steps and the month loop.
  - The class `Gate`, which holds the fields of `_this` and the browser storage. Its constructor `Launch` is the early return or the render. `Submit` is the click handler.
  - `Gate.State()` views the fields as one `View` value. Each method of `Gate` is proved to move that value by a pure step: `Launched`, `Entered` (`setValues`), `Checked` (`validate`), `Concluded` (the age comparison and its outcome) and `Clicked`, which chains them as the click handler does. The lemmas `ClickRecordsInput`, `ClickRejected`, `ClickSucceeds`, `ClickUnderAge`, `OnlySuccessWrites` and `SuccessIsRemembered` state what one click does, for every state before it.
- `LegacyAgeCheck`: the older version at the repository root. It has four settings and fixed messages, and it uses sessionStorage only. An under-age answer is pushed onto the error list and leaves the form open. Its `Gate` is built the same way, with its own steps and lemmas.

Inputs the model takes as parameters instead of computing:

- the age that `setAge` derives from the date and the clock (`birthAge`);
- the current time in milliseconds (`now`);
- the `toGMTString` formatting (`gmt: int -> string`);
- whether the storage write throws (`writeFails`).

The observable results of an outcome are recorded in `Gate.effects`. They are the container's new content, a navigation, the removal of the dialog, and the callbacks. Each list is in the order the plugin produces them once its timers have run.

Three behaviours of the code worth knowing:

- **Day "0".** The day pattern itself accepts "0". But the day is stripped of its zeros first, so "0" and "00" become "" and fail. The days actually accepted are 1..31, each optionally preceded by zeros (`Validation.StrippedDayAcceptedIff`).
- **Cookie write can fail.** The cookie assignment sits inside the same `try` as the Web Storage write, so `setStorage` returns false when either throws (`AgeCheck.Gate.SetStorage`).
- **Falsy expiry.** With a falsy `storageExpires` the cookie string carries that value's own text, as in `expires=null` (the default) or `expires=0`. Browsers do not read such a value as a date (`Storage.ExpiryInstant`, `Storage.FalsyExpiryWrittenAsIs`).

## Model

| member | source | states |
|---|---|---|
| Validation.StripLeadingZeros | src/jquery.agecheck.js:46 | the stored day is empty or does not start with '0'; it is a suffix of the typed day, and everything removed is '0' |
| Validation.StripZerosOf | src/jquery.agecheck.js:46 | any number of zeros in front of a string that does not start with '0' are removed, leaving exactly that string |
| Validation.AllZerosStripToEmpty | src/jquery.agecheck.js:46 | the day strips to "" exactly when every character typed is '0' ("" included) |
| Validation.DayValid | src/jquery.agecheck.js:51 | a day the pattern accepts is one or two digits |
| Validation.YearValid | src/jquery.agecheck.js:54 | a year the pattern accepts is four digits |
| Validation.DayValidIff | src/jquery.agecheck.js:51 | the day pattern accepts exactly the canonical decimal forms of 0..31 |
| Validation.YearValidIff | src/jquery.agecheck.js:54 | the year pattern accepts exactly the decimal forms of 1900..2099 |
| Validation.YearValidForm | src/jquery.agecheck.js:54 | a year the pattern accepts is the decimal form of its value, which lies in 1900..2099 |
| Validation.YearOfForm | src/jquery.agecheck.js:54 | the decimal form of any year in 1900..2099 passes the pattern |
| Validation.StrippedDayAcceptedIff | src/jquery.agecheck.js:46-51 | after stripping, the day passes iff the typed text is zeros followed by the decimal form of 1..31; "0" and "00" fail |
| Validation.StrippedDayOfForm | src/jquery.agecheck.js:46-51 | zeros followed by the form of 1..31 strip to that form, which the pattern accepts |
| Validation.StrippedDayForm | src/jquery.agecheck.js:46-51 | a typed day that passes after stripping is zeros followed by the form of some 1..31 |
| Validation.ErrorsFor | src/jquery.agecheck.js:49-56 | the list has 0..2 entries, is empty iff both fields pass, holds the day message first and the year message last |
| Validation.FormAcceptedIff | src/jquery.agecheck.js:46-59 | the form passes iff the typed day is zeros then 1..31 and the year is 1900..2099 |
| Text.NatToString | src/jquery.agecheck.js:89 | the decimal form has at least one digit, only digits, and a leading '0' only for 0 |
| Text.DecimalRoundTrip | src/jquery.agecheck.js:89 | reading back the decimal form of n gives n |
| Text.CanonicalDecimal | src/jquery.agecheck.js:89 | a digit string without a superfluous leading zero is the decimal form of its value |
| Text.DropWhile | src/jquery.agecheck.js:46 | the result is a suffix of the input, character by character; it does not start with a dropped character, and only dropped characters were removed |
| Text.IndexOf | src/jquery.agecheck.js:85 | the index found is an occurrence and no earlier occurrence exists; None means no occurrence at all |
| Text.SubstituteFirst | src/jquery.agecheck.js:85 | text without the token is returned unchanged |
| Text.SubstituteFirstAt | src/jquery.agecheck.js:85 | when the token first occurs after a prefix a, only that occurrence is replaced and the rest is kept, later tokens included |
| Text.Split | src/jquery.agecheck.js:120 | split yields at least one part and no part contains the separator |
| Text.JoinSplit | src/jquery.agecheck.js:120 | joining the parts of a split with the separator gives the string back |
| Text.SplitJoin | src/jquery.agecheck.js:120 | splitting a join of separator-free parts gives the parts back |
| Text.TrimEnd | src/jquery.agecheck.js:120 | the result is a prefix of the input that does not end with white space, and only white space was removed |
| Text.TrimStartsWith | src/jquery.agecheck.js:120 | for a prefix p that does not end in white space, the trimmed segment starts with p iff the segment without its leading blanks does |
| Markup.ErrorsHtml | src/jquery.agecheck.js:64-69 | the markup is the empty list "<ul></ul>" iff there are no errors |
| Markup.CopyText | src/jquery.agecheck.js:85 | a copy without the "[21]" token is kept as it is |
| Markup.DefaultCopyText | src/jquery.agecheck.js:85 | in the default copy the token is replaced by "<strong>" + minAge + "</strong>" and the text around it is kept |
| Markup.FirstCloseAfter | src/jquery.agecheck.js:82-94 | when the text before the paragraph's end has no "</p>", the first "</p>" of the dialog is the one closing the paragraph, and the errors region follows it |
| Markup.NoCloseAnywhere | jquery.agecheck.js:68-80 | without the closing tag, a dialog whose head and copy have no "</p>" has none at all |
| Markup.TailFree | src/jquery.agecheck.js:86-94 | the fixed dialog tail, the month options included, contains no "</p>" |
| Markup.RenderErrors | src/jquery.agecheck.js:64-69 | the `+=` loop produces "<ul>", one "<li><span>x</span>msg</li>" per error in order, then "</ul>" |
| Markup.ErrorItemsAppend | src/jquery.agecheck.js:66-68 | the items of a list are the items of its parts, concatenated in order |
| Markup.ErrorsHtmlRoundTrip | src/jquery.agecheck.js:64-69 | reading the error markup back gives the list, when no message contains '<' |
| Markup.MonthNames | src/jquery.agecheck.js:80 | twelve captions, January to December in calendar order |
| Markup.AppendOptions | src/jquery.agecheck.js:88-90 | the loop appends one option per caption, valued by its position, in order |
| Markup.OptionsFromAppend | src/jquery.agecheck.js:88-90 | the options of a concatenation are the options of its parts, the second part numbered on from the first |
| Markup.OptionsRoundTrip | src/jquery.agecheck.js:88-90 | reading the options back gives the (value, caption) pairs, when no caption contains '<' |
| Markup.OptionParses | src/jquery.agecheck.js:89 | one option tag followed by any text reads back as its (value, caption) and that text, when the caption has no '<' |
| Markup.MonthOptionsRoundTrip | src/jquery.agecheck.js:80-90 | the month selector reads back as exactly twelve options: value k labelled with month k, k in 0..11 |
| Markup.MonthsNumbered | src/jquery.agecheck.js:80-90 | the month captions numbered from 0 are the pairs (k, month k) for k in 0..11 |
| Markup.AppendHead | src/jquery.agecheck.js:82-84 | the overlay, container and title steps append exactly the dialog head for the title |
| Markup.AppendTail | src/jquery.agecheck.js:86-94 | the steps after the paragraph, the month loop included, append exactly the fixed dialog tail |
| Storage.CountWhere | src/jquery.agecheck.js:120 | the filtered count is positive iff some segment passes the filter |
| Storage.FlagSegmentSeen | src/jquery.agecheck.js:118-120 | a cookie segment of blanks, "ageVerified=" and any value counts as verified; "ageVerified=false" counts too |
| Storage.FlagSegmentSeenAfter | src/jquery.agecheck.js:118-120 | such a segment counts after any other cookies and a ';' |
| Storage.OnlyExactTrueCounts | src/jquery.agecheck.js:121-122 | in Web Storage, any stored value other than exactly "true" reads as not verified |
| Storage.FlagSet | src/jquery.agecheck.js:118-124 | for the Web Storage backends the flag reads as set only when the key is present |
| Storage.CookieFlagSetIff | src/jquery.agecheck.js:120 | for the cookie backend the flag reads as set iff some ';'-separated segment, trimmed, starts with "ageVerified=" |
| Storage.CookieString | src/jquery.agecheck.js:133 | the string written starts with "ageVerified=true;" and ends with ';'; its exact text is fixed by `TruthyExpiryWritten` and `FalsyExpiryWrittenAsIs` |
| Storage.TruthyExpiryWritten | src/jquery.agecheck.js:128-133 | a non-zero number of days n is written as "ageVerified=true; expires=" + the GMT form of now + n × 86 400 000 ms + ";" |
| Storage.FalsyExpiryWrittenAsIs | src/jquery.agecheck.js:128-133 | a falsy expiry is written as its own text after "expires=", and 0 days as "expires=0" |
| Storage.Written | src/jquery.agecheck.js:126-136 | the write touches only the area of the chosen backend: sessionStorage and localStorage then map key to val, the cookie backend appends exactly the flag cookie string to the writes, the others leave the writes alone; the cookie string read back is unchanged |
| Storage.ExpiryInstant | src/jquery.agecheck.js:128-131 | an expiry is computed iff the setting is a non-zero number of days, and it lies days × 86 400 000 ms after now |
| Storage.CookieStringCarriesFlag | src/jquery.agecheck.js:133 | the cookie string written reads back as verified |
| Storage.WrittenFlagIsRead | src/jquery.agecheck.js:125-136 | writing ("ageVerified", "true") makes the Web Storage backends read as verified, and the last cookie written carries the flag |
| AgeCheck.BuildHtml | src/jquery.agecheck.js:78-94 | the `+=` steps and the month loop produce exactly the dialog around "<p>" + copy with its token replaced + "</p>" |
| AgeCheck.ParagraphClosed | src/jquery.agecheck.js:82-86 | when neither the title nor the copy contains "</p>", the first "</p>" of the dialog comes right after the head, "<p>" and the copy with its token replaced, and the errors region follows it directly |
| AgeCheck.DefaultParagraph | src/jquery.agecheck.js:14-18 | with the default settings the copy reads "This Website requires you to be <strong>21</strong> years or older …", the "[21]" token replaced |
| AgeCheck.DefaultDialogClosed | src/jquery.agecheck.js:13-32 | the default dialog's first "</p>" comes right after the default copy |
| AgeCheck.SuccessEffects | src/jquery.agecheck.js:142-163 | the success message comes first; with a redirect, the navigation comes last; the dialog is removed iff there is no redirect; the callback runs iff there is no redirect and a callback is set |
| AgeCheck.UnderAgeEffects | src/jquery.agecheck.js:164-175 | the under-age message comes first; the redirect on failure comes last when configured; the callback runs iff one is set; the dialog is never removed and the success callback never runs |
| AgeCheck.Render | src/jquery.agecheck.js:178-182 | nothing is rendered when the flag reads as set; otherwise the dialog is |
| AgeCheck.Gate.Launch | src/jquery.agecheck.js:178-182 | a fresh `_this` with empty fields and the given settings and store; Skipped with an empty page when the flag is set, Open with the dialog otherwise |
| AgeCheck.Gate.SetValues | src/jquery.agecheck.js:42-48 | month and year are stored as typed, the day with its leading zeros stripped; no other field changes |
| AgeCheck.Gate.Validate | src/jquery.agecheck.js:49-60 | errors are rebuilt from the stored day and year alone with the configured messages, day first, and shown as the error markup; the result is true iff the list is empty; no other field changes |
| AgeCheck.Gate.SetStorage | src/jquery.agecheck.js:125-141 | returns false iff the write throws; a failed write leaves the store as it was |
| AgeCheck.Gate.HandleSuccess | src/jquery.agecheck.js:142-163 | success message, then the redirect, or the removal of the dialog followed by the callback when there is one |
| AgeCheck.Gate.HandleUnderAge | src/jquery.agecheck.js:164-175 | under-age message, the callback when there is one, then the redirect on failure when configured |
| AgeCheck.Gate.Conclude | src/jquery.agecheck.js:187-196 | the age is recorded; age ≥ minAge writes the flag unless the write throws and succeeds either way; a younger visitor gets the under-age outcome with the store unchanged |
| AgeCheck.Gate.Submit | src/jquery.agecheck.js:184-198 | the new state is the click step `Clicked` of the old one: setValues, validate, and the outcome only when validation passed |
| AgeCheck.ClickRecordsInput | src/jquery.agecheck.js:184-188 | after any click the fields hold the input (day stripped) and the errors are the list for that input alone, shown as markup |
| AgeCheck.ClickRejected | src/jquery.agecheck.js:186-188 | an invalid day or year leaves a non-empty error list and no age, outcome, write or effect |
| AgeCheck.ClickSucceeds | src/jquery.agecheck.js:187-193 | a valid date with age ≥ minAge (inclusive) succeeds, writes the flag unless the write throws, and adds the success effects |
| AgeCheck.ClickUnderAge | src/jquery.agecheck.js:187-196 | a valid date with age < minAge gives the under-age outcome and effects, and the store is unchanged |
| AgeCheck.OnlySuccessWrites | src/jquery.agecheck.js:184-198 | the store changes only when the date is valid, the age reaches minAge, the write went through and the outcome is success |
| AgeCheck.SuccessIsRemembered | src/jquery.agecheck.js:178-193 | with Web Storage, after a successful click whose write went through, the next invocation returns early |
| AgeCheck.VerifiedVisitorReturns | src/jquery.agecheck.js:178-198 | with Web Storage, a visitor who passes is not asked again: the next invocation renders nothing |
| AgeCheck.UnderAgeVisitorNotRemembered | src/jquery.agecheck.js:184-196 | an under-age visitor with a valid date gets the under-age outcome and the store is left as it was |
| LegacyAgeCheck.BuildHtml | jquery.agecheck.js:63-80 | the `+=` steps and the month loop produce the dialog around "<p>" + copy with its token replaced, without "</p>" |
| LegacyAgeCheck.ParagraphLeftOpen | jquery.agecheck.js:68-80 | when neither the title nor the copy contains "</p>", the dialog has no "</p>" anywhere: the paragraph is never closed |
| LegacyAgeCheck.DiffersFromClosedDialog | jquery.agecheck.js:71 | for every setting the markup differs from the same dialog with its paragraph closed |
| LegacyAgeCheck.DefaultDialogLeftOpen | jquery.agecheck.js:13-18 | with the default settings the dialog has no "</p>" |
| LegacyAgeCheck.SuccessEffects | jquery.agecheck.js:106-120 | two effects: the fixed success message, then the redirect when set, otherwise the removal of the dialog |
| LegacyAgeCheck.Render | jquery.agecheck.js:124-128 | nothing is rendered when sessionStorage holds "ageVerified" = "true"; otherwise the dialog is |
| LegacyAgeCheck.Gate.Launch | jquery.agecheck.js:124-128 | a fresh `_this` with empty fields, the given settings and session; Skipped with an empty page when the session flag is set, Open with the dialog otherwise |
| LegacyAgeCheck.Gate.SetValues | jquery.agecheck.js:27-33 | month and year are stored as typed, the day with its leading zeros stripped; no other field changes |
| LegacyAgeCheck.Gate.Validate | jquery.agecheck.js:34-45 | errors are rebuilt from the stored day and year alone with the fixed messages, day first, and shown as the error markup; the result is true iff the list is empty; no other field changes |
| LegacyAgeCheck.Gate.SetSessionStorage | jquery.agecheck.js:98-105 | returns false iff `setItem` throws; otherwise the session maps the key to the value |
| LegacyAgeCheck.Gate.HandleSuccess | jquery.agecheck.js:106-120 | the fixed success message, then the redirect or the removal of the dialog |
| LegacyAgeCheck.Gate.Conclude | jquery.agecheck.js:133-143 | the age is recorded; age ≥ minAge writes the session flag unless `setItem` throws and succeeds; a younger visitor gets the message pushed onto the errors and shown again, with the form open |
| LegacyAgeCheck.Gate.Submit | jquery.agecheck.js:130-145 | the new state is the click step `Clicked` of the old one: setValues, validate, and the outcome only when validation passed |
| LegacyAgeCheck.ClickRecordsInput | jquery.agecheck.js:130-145 | after any click the fields hold the input (day stripped) and the errors region shows the list the click leaves |
| LegacyAgeCheck.ClickRejected | jquery.agecheck.js:131-133 | an invalid day or year leaves the fixed-message error list, non-empty, and no age, outcome, write or effect |
| LegacyAgeCheck.ClickSucceeds | jquery.agecheck.js:133-139 | a valid date with age ≥ minAge succeeds, writes the session flag unless `setItem` throws, and adds the success effects |
| LegacyAgeCheck.ClickUnderAge | jquery.agecheck.js:133-143 | a valid date with age < minAge leaves errors exactly ["You are not old enough"], shown, the phase, session and effects unchanged |
| LegacyAgeCheck.UnderAgeRetryIsStable | jquery.agecheck.js:130-145 | because validate empties the list first, repeating the same under-age submit leaves the state as it is: the message does not accumulate |
| LegacyAgeCheck.OnlySuccessWrites | jquery.agecheck.js:130-145 | the session changes only when the date is valid, the age reaches minAge, the write went through and the outcome is success |
| LegacyAgeCheck.SuccessIsRemembered | jquery.agecheck.js:124-139 | after a successful click whose write went through, the next invocation returns early |
| LegacyAgeCheck.UnderAgeKeepsFormOpen | jquery.agecheck.js:140-143 | an under-age visitor with a valid date sees "You are not old enough", the form stays open and sessionStorage is unchanged |
| LegacyAgeCheck.VerifiedVisitorReturns | jquery.agecheck.js:124-139 | on an open form, a visitor who passes succeeds, and a new invocation over the same session renders nothing |

## Findings

| source | as written | input that shows it | evidently intended | confidence | as-written member | corrected member |
|---|---|---|---|---|---|---|
| jquery.agecheck.js:71 | the `;` ends the statement before `+ '</p>'`, so the copy paragraph is never closed and runs into the errors `<div>` | any settings, the defaults included (`LegacyAgeCheck.DefaultDialogLeftOpen`) | the paragraph closed with `</p>`, as src/jquery.agecheck.js:85 writes it | high; not executed | LegacyAgeCheck.ParagraphLeftOpen | AgeCheck.ParagraphClosed |

The defect is in the markup string only: when jQuery parses it, the `<div class="errors">` start tag closes the open `<p>` implicitly, so the page built from it is the same as with the corrected markup. The legacy module keeps the markup as written, because it models that file. The current plugin's `DialogHtml` is the corrected definition, and `AgeCheck.BuildHtml` is proved to produce it.

## Left out

- DOM insertion and removal, jQuery selectors, `.animate`, `.css` and removal of the placeholder on focus: the page is a string and the outcomes are `Effect`s.
- The `setTimeout` delays (200 ms error display, 2 s redirect or exit, 500 ms resize re-run): the error markup is shown at once, and effects are listed in the order they happen.
- `reCenter` and the resize handler: they do window and element pixel arithmetic.
- `setAge`, which does `Date` arithmetic on the clock: the age is the input `birthAge`, so the model does not say how a birth date maps to an age.
- `toGMTString`: it is the function parameter `gmt`; the current time is the input `now`.
- `console.log` when the write fails: the model only records that success handling goes on.
- The success and under-age callbacks: only their invocation is recorded, as an effect.
- `window.location.replace`: a `Navigate` effect.
- `$.extend` shallow merge: `Settings` is the already merged record. A partial `errorMsg` or `successMsg` object in the options, which would leave the other message undefined, is not modelled.
- The `storage` setting names other than 'sessionStorage', 'localStorage' and 'cookie': `window[name]` is then undefined, and reading it throws.
- `minAge` is an integer: it covers the `${minAge}` formatting of integers, but not fractional or string values, nor the `$` replacement patterns of `String.prototype.replace`.
- The browser cookie jar: assignments to `document.cookie` are recorded in `Store.cookieWrites`, and the string read back is the separate field `Store.cookie`. How the browser merges writes into what it returns is not modelled.
- AgeCheck.VerifiedVisitorReturns: stated for the Web Storage backends only; with the cookie backend it only proves that the written string carries the flag, because of the cookie jar above.
- Storage.ExpiryInstant: only a whole number of days or a falsy non-number is modelled; fractional days, numeric strings and other truthy non-numbers, whose `Date` arithmetic yields other strings (a non-numeric string such as "abc" gives "expires=Invalid Date"), are not; a falsy value is limited to the texts `null`, `undefined`, `false`, `NaN` and the empty string (`Storage.FalsyText`).
- AgeCheck.Gate.Launch: a storage read that throws (`window[settings.storage]` raising a SecurityError where storage is blocked, `getItem`, or `document.cookie`) makes `$.ageCheck` throw before anything is rendered; the reads are modelled as always succeeding.
- LegacyAgeCheck.Gate.Launch: likewise, a `sessionStorage.getItem` that throws aborts the plugin before rendering; not modelled.
- The month value typed into the form is stored but never validated, as in the source: it only feeds `setAge`.
