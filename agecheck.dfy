/**
 * The current plugin, `$.ageCheck(options)`: its settings and their
 * defaults, the dialog markup, and the per-invocation state `_this` with the
 * click handler's decision: validate, compare the age with `minAge`, write
 * the flag only on success, and render nothing when the flag is already set.
 */
module AgeCheck {
  import opened Wrappers
  import opened Text
  import opened Validation
  import opened Markup
  import opened Storage

  /** The merged settings; the two callbacks are reduced to whether they are present. */
  datatype Settings = Settings(
    minAge: int,
    redirectTo: string,
    redirectOnFail: string,
    title: string,
    copy: string,
    hasSuccess: bool,
    successMsg: SuccessMsg,
    underAgeMsg: string,
    hasUnderAge: bool,
    errorMsg: ErrorMessages,
    storage: Backend,
    storageExpires: Expires)

  const Defaults := Settings(
    21, "", "", "Age Verification", DefaultCopy,
    false, SuccessMsg("Success!", "You are now being redirected back to the application..."),
    "Sorry, you are not old enough to view this site...", false,
    ErrorMessages("Day is invalid or empty", "Year is invalid or empty"),
    SessionStorage, Unset("null"))

  /** The markup `buildHtml` appends to the page: the paragraph is the copy with its age token replaced. */
  function DialogHtml(s: Settings): string
  {
    Dialog(s.title, "<p>" + CopyText(s.copy, s.minAge) + "</p>")
  }

  /**
   * The paragraph is closed right after the copy: when neither the title nor
   * the copy has a "</p>" of its own, the first "</p>" of the dialog follows
   * the copy and is followed directly by the errors region.
   */
  lemma ParagraphClosed(s: Settings)
    requires NoParaClose(s.title) && NoParaClose(s.copy)
    ensures var opening := DialogHead(s.title) + "<p>" + CopyText(s.copy, s.minAge);
            IndexOf(DialogHtml(s), ParaClose) == Some(|opening|)
            && DialogHtml(s)[..|opening|] == opening
            && StartsWith(DialogHtml(s)[|opening| + |ParaClose|..], ErrorsRegion)
  {
    OpeningFree(s.title, s.copy, s.minAge);
    FirstCloseAfter(DialogHead(s.title), CopyText(s.copy, s.minAge));
  }

  /** With the default settings the paragraph is the default copy with "<strong>21</strong>" in place of the token. */
  lemma DefaultParagraph()
    ensures CopyText(Defaults.copy, Defaults.minAge) == CopyLead + "<strong>21</strong>" + CopyRest
  {
    var copy, age := Defaults.copy, Defaults.minAge;
    assert copy == DefaultCopy && age == 21;
    DefaultCopyAt21();
  }

  /** The default dialog closes its paragraph right after the copy. */
  lemma DefaultDialogClosed()
    ensures var opening := DialogHead(Defaults.title) + "<p>" + CopyText(Defaults.copy, Defaults.minAge);
            IndexOf(DialogHtml(Defaults), ParaClose) == Some(|opening|)
  {
    DefaultCopyFree();
    FreeWithout(Defaults.title, '<');
    ParagraphClosed(Defaults);
  }

  /** The string part of `buildHtml`, with its `+=` loop over the months. */
  method BuildHtml(s: Settings) returns (html: string)
    ensures html == DialogHtml(s)
  {
    html := "";
    html := AppendHead(html, s.title);
    assert html == DialogHead(s.title);
    html := html + ("<p>" + CopyText(s.copy, s.minAge) + "</p>");
    html := AppendTail(html);
  }

  /** What one invocation appends to the page: nothing when the flag is already set. */
  method Render(s: Settings, st: Store) returns (html: string)
    ensures html == (if FlagSet(s.storage, st) then "" else DialogHtml(s))
  {
    if FlagSet(s.storage, st) {
      return "";
    }
    html := BuildHtml(s);
  }

  /**
   * `handleSuccess` once its timers have run: the success message, then
   * either the redirect or the removal of the dialog and the callback.
   */
  function SuccessEffects(s: Settings): (r: seq<Effect>)
    ensures |r| >= 2 && r[0] == ReplaceDialog(SuccessHtml(s.successMsg))
    ensures s.redirectTo != "" ==> r[|r| - 1] == Navigate(s.redirectTo)
    ensures RemoveDialog in r <==> s.redirectTo == ""
    ensures SuccessCallback in r <==> s.redirectTo == "" && s.hasSuccess
  {
    [ReplaceDialog(SuccessHtml(s.successMsg))]
    + if s.redirectTo != "" then [Navigate(s.redirectTo)]
      else [RemoveDialog] + (if s.hasSuccess then [SuccessCallback] else [])
  }

  /** `handleUnderAge`: the message, the callback at once, the redirect two seconds later. */
  function UnderAgeEffects(s: Settings): (r: seq<Effect>)
    ensures |r| >= 1 && r[0] == ReplaceDialog("<h3>" + s.underAgeMsg + "</h3>")
    ensures s.redirectOnFail != "" ==> r[|r| - 1] == Navigate(s.redirectOnFail)
    ensures UnderAgeCallback in r <==> s.hasUnderAge
    ensures RemoveDialog !in r && SuccessCallback !in r
  {
    [ReplaceDialog("<h3>" + s.underAgeMsg + "</h3>")]
    + (if s.hasUnderAge then [UnderAgeCallback] else [])
    + (if s.redirectOnFail != "" then [Navigate(s.redirectOnFail)] else [])
  }

  /**
   * Where one invocation stands: Skipped (the flag was set, nothing was
   * rendered), Open (the form accepts a submit), or one of the two outcomes,
   * after which the form is gone.
   */
  datatype Phase = Skipped | Open | Succeeded | UnderAge

  /** The fields of `_this`, the phase, the browser storage and the effects so far, as one value. */
  datatype View = View(
    month: string,
    day: string,
    year: string,
    age: Option<int>,
    errors: seq<string>,
    errorsShown: string,
    phase: Phase,
    store: Store,
    effects: seq<Effect>)

  /** The state right after `$.ageCheck(options)` returns. */
  function Launched(s: Settings, st: Store): View
  {
    View("", "", "", None, [], "", if FlagSet(s.storage, st) then Skipped else Open, st, [])
  }

  /** `setValues`. */
  function Entered(v: View, monthIn: string, dayIn: string, yearIn: string): View
  {
    v.(month := monthIn, day := StripLeadingZeros(dayIn), year := yearIn)
  }

  /** `validate`: the list rebuilt from the fields alone, and shown. */
  function Checked(v: View, msgs: ErrorMessages): View
  {
    var errors := ErrorsFor(v.day, v.year, msgs);
    v.(errors := errors, errorsShown := ErrorsHtml(errors))
  }

  /** After a passing validation: `setAge`, then the write and the success, or the under-age outcome. */
  function Concluded(s: Settings, v: View, birthAge: int, now: int, gmt: int -> string, writeFails: bool): View
  {
    if birthAge >= s.minAge then
      v.(age := Some(birthAge), phase := Succeeded,
         store := if writeFails then v.store
                  else Written(s.storage, v.store, FlagKey, "true", s.storageExpires, now, gmt),
         effects := v.effects + SuccessEffects(s))
    else
      v.(age := Some(birthAge), phase := UnderAge, effects := v.effects + UnderAgeEffects(s))
  }

  /** The click handler as a function of the state before the click. */
  function Clicked(s: Settings, v: View, monthIn: string, dayIn: string, yearIn: string, birthAge: int,
                   now: int, gmt: int -> string, writeFails: bool): View
  {
    var checked := Checked(Entered(v, monthIn, dayIn, yearIn), s.errorMsg);
    if checked.errors == [] then Concluded(s, checked, birthAge, now, gmt, writeFails) else checked
  }

  /** Every click records the input and rebuilds the error list from it alone, whatever came before. */
  lemma ClickRecordsInput(s: Settings, v: View, monthIn: string, dayIn: string, yearIn: string, birthAge: int,
                          now: int, gmt: int -> string, writeFails: bool)
    ensures var r := Clicked(s, v, monthIn, dayIn, yearIn, birthAge, now, gmt, writeFails);
            r.month == monthIn && r.day == StripLeadingZeros(dayIn) && r.year == yearIn
            && r.errors == ErrorsFor(StripLeadingZeros(dayIn), yearIn, s.errorMsg)
            && r.errorsShown == ErrorsHtml(r.errors)
  {
    var c := Checked(Entered(v, monthIn, dayIn, yearIn), s.errorMsg);
    if c.errors == [] {
      var r := Concluded(s, c, birthAge, now, gmt, writeFails);
      assert r.month == c.month && r.day == c.day && r.year == c.year;
      assert r.errors == c.errors && r.errorsShown == c.errorsShown;
    }
  }

  /** A rejected date changes nothing beyond the fields and the errors: no age, no outcome, no write. */
  lemma ClickRejected(s: Settings, v: View, monthIn: string, dayIn: string, yearIn: string, birthAge: int,
                      now: int, gmt: int -> string, writeFails: bool)
    requires !DayValid(StripLeadingZeros(dayIn)) || !YearValid(yearIn)
    ensures var r := Clicked(s, v, monthIn, dayIn, yearIn, birthAge, now, gmt, writeFails);
            r.errors != [] && r.age == v.age && r.phase == v.phase && r.store == v.store && r.effects == v.effects
  {
  }

  /**
   * An accepted date of someone at least `minAge` (inclusive) writes the flag
   * unless the write throws, and succeeds either way.
   */
  lemma ClickSucceeds(s: Settings, v: View, monthIn: string, dayIn: string, yearIn: string, birthAge: int,
                      now: int, gmt: int -> string, writeFails: bool)
    requires DayValid(StripLeadingZeros(dayIn)) && YearValid(yearIn) && birthAge >= s.minAge
    ensures var r := Clicked(s, v, monthIn, dayIn, yearIn, birthAge, now, gmt, writeFails);
            r.errors == [] && r.age == Some(birthAge) && r.phase == Succeeded
            && r.store == (if writeFails then v.store
                           else Written(s.storage, v.store, FlagKey, "true", s.storageExpires, now, gmt))
            && r.effects == v.effects + SuccessEffects(s)
  {
  }

  /** An accepted date of someone younger than `minAge` gives the under-age outcome and writes nothing. */
  lemma ClickUnderAge(s: Settings, v: View, monthIn: string, dayIn: string, yearIn: string, birthAge: int,
                      now: int, gmt: int -> string, writeFails: bool)
    requires DayValid(StripLeadingZeros(dayIn)) && YearValid(yearIn) && birthAge < s.minAge
    ensures var r := Clicked(s, v, monthIn, dayIn, yearIn, birthAge, now, gmt, writeFails);
            r.errors == [] && r.age == Some(birthAge) && r.phase == UnderAge && r.store == v.store
            && r.effects == v.effects + UnderAgeEffects(s)
  {
  }

  /** The store changes only on the success path: validation passed and the age reached `minAge`. */
  lemma OnlySuccessWrites(s: Settings, v: View, monthIn: string, dayIn: string, yearIn: string, birthAge: int,
                          now: int, gmt: int -> string, writeFails: bool)
    ensures var r := Clicked(s, v, monthIn, dayIn, yearIn, birthAge, now, gmt, writeFails);
            r.store != v.store ==>
              DayValid(StripLeadingZeros(dayIn)) && YearValid(yearIn) && birthAge >= s.minAge
              && r.phase == Succeeded && !writeFails
  {
  }

  /**
   * After a successful click whose write went through to Web Storage, the
   * flag reads as set: the next invocation returns early.
   */
  lemma SuccessIsRemembered(s: Settings, v: View, monthIn: string, dayIn: string, yearIn: string, birthAge: int,
                            now: int, gmt: int -> string)
    requires s.storage != Cookie
    requires DayValid(StripLeadingZeros(dayIn)) && YearValid(yearIn) && birthAge >= s.minAge
    ensures var r := Clicked(s, v, monthIn, dayIn, yearIn, birthAge, now, gmt, false);
            Launched(s, r.store).phase == Skipped
  {
    WrittenFlagIsRead(s.storage, v.store, s.storageExpires, now, gmt);
  }

  /** The state one call of `$.ageCheck` keeps in `_this`, with the browser storage it uses. */
  class Gate {
    const settings: Settings
    var month: string
    var day: string
    var year: string
    var age: Option<int>
    var errors: seq<string>
    var errorsShown: string
    var page: string
    var phase: Phase
    var store: Store
    var effects: seq<Effect>

    function State(): View
      reads this
    {
      View(month, day, year, age, errors, errorsShown, phase, store, effects)
    }

    /** `$.ageCheck(options)` up to the click handler: return early when verified, else render. */
    constructor Launch(s: Settings, st: Store)
      ensures settings == s
      ensures State() == Launched(s, st)
      ensures page == (if FlagSet(s.storage, st) then "" else DialogHtml(s))
    {
      var html := Render(s, st);
      settings, store := s, st;
      month, day, year, age := "", "", "", None;
      errors, errorsShown, effects := [], "", [];
      phase := if FlagSet(s.storage, st) then Skipped else Open;
      page := html;
    }

    method SetValues(monthIn: string, dayIn: string, yearIn: string)
      modifies this`month, this`day, this`year
      ensures State() == Entered(old(State()), monthIn, dayIn, yearIn)
    {
      month := monthIn;
      day := StripLeadingZeros(dayIn);
      year := yearIn;
    }

    /** Rebuilds the error list from empty, shows it, and passes iff it is empty. */
    method Validate() returns (valid: bool)
      modifies this`errors, this`errorsShown
      ensures State() == Checked(old(State()), settings.errorMsg)
      ensures valid <==> errors == []
    {
      errors := [];
      if !DayValid(day) {
        errors := errors + [settings.errorMsg.invalidDay];
      }
      if !YearValid(year) {
        errors := errors + [settings.errorMsg.invalidYear];
      }
      errorsShown := "";
      var html := RenderErrors(errors);
      errorsShown := html;
      valid := |errors| < 1;
    }

    /** `setStorage(key, val, expires)`: false only when the write throws. */
    method SetStorage(key: string, val: string, expires: Expires, now: int, gmt: int -> string, writeFails: bool)
      returns (ok: bool)
      modifies this`store
      ensures ok == !writeFails
      ensures store == if writeFails then old(store)
                       else Written(settings.storage, old(store), key, val, expires, now, gmt)
    {
      if writeFails {
        return false;
      }
      store := Written(settings.storage, store, key, val, expires, now, gmt);
      return true;
    }

    method HandleSuccess()
      modifies this`phase, this`effects
      ensures phase == Succeeded && effects == old(effects) + SuccessEffects(settings)
    {
      phase := Succeeded;
      effects := effects + SuccessEffects(settings);
    }

    method HandleUnderAge()
      modifies this`phase, this`effects
      ensures phase == UnderAge && effects == old(effects) + UnderAgeEffects(settings)
    {
      phase := UnderAge;
      effects := effects + UnderAgeEffects(settings);
    }

    /**
     * The click handler after a passing validation: `setAge`, then the
     * comparison with `minAge`, which alone decides whether the flag is written.
     */
    method Conclude(birthAge: int, now: int, gmt: int -> string, writeFails: bool)
      modifies this`age, this`phase, this`store, this`effects
      ensures State() == Concluded(settings, old(State()), birthAge, now, gmt, writeFails)
    {
      age := Some(birthAge);
      if birthAge >= settings.minAge {
        var ok := SetStorage(FlagKey, "true", settings.storageExpires, now, gmt, writeFails);
        HandleSuccess();
      } else {
        HandleUnderAge();
      }
    }

    /**
     * The click handler. `birthAge` is the age `setAge` computes from the
     * date and the clock; `writeFails` says whether the storage write throws.
     */
    method Submit(monthIn: string, dayIn: string, yearIn: string, birthAge: int,
                  now: int, gmt: int -> string, writeFails: bool)
      requires phase == Open
      modifies this`month, this`day, this`year, this`age, this`errors, this`errorsShown
      modifies this`phase, this`store, this`effects
      ensures State() == Clicked(settings, old(State()), monthIn, dayIn, yearIn, birthAge, now, gmt, writeFails)
    {
      SetValues(monthIn, dayIn, yearIn);
      var valid := Validate();
      if valid {
        Conclude(birthAge, now, gmt, writeFails);
      }
    }
  }

  /**
   * A visitor old enough who types a valid date passes, and when the flag
   * went to Web Storage the next invocation renders nothing.
   */
  method VerifiedVisitorReturns(s: Settings, st: Store, monthIn: string, dayIn: string, yearIn: string,
                                birthAge: int, now: int, gmt: int -> string)
    returns (first: Phase, second: Phase, secondPage: string)
    requires s.storage != Cookie && !FlagSet(s.storage, st)
    requires DayValid(StripLeadingZeros(dayIn)) && YearValid(yearIn) && birthAge >= s.minAge
    ensures first == Succeeded && second == Skipped && secondPage == ""
  {
    var gate := new Gate.Launch(s, st);
    gate.Submit(monthIn, dayIn, yearIn, birthAge, now, gmt, false);
    ClickSucceeds(s, Launched(s, st), monthIn, dayIn, yearIn, birthAge, now, gmt, false);
    SuccessIsRemembered(s, Launched(s, st), monthIn, dayIn, yearIn, birthAge, now, gmt);
    first := gate.phase;
    var again := new Gate.Launch(s, gate.store);
    second, secondPage := again.phase, again.page;
  }

  /** An under-age visitor with a valid date gets the under-age outcome and nothing is written. */
  method UnderAgeVisitorNotRemembered(s: Settings, st: Store, monthIn: string, dayIn: string, yearIn: string,
                                      birthAge: int, now: int, gmt: int -> string)
    returns (outcome: Phase, storeAfter: Store)
    requires !FlagSet(s.storage, st)
    requires DayValid(StripLeadingZeros(dayIn)) && YearValid(yearIn) && birthAge < s.minAge
    ensures outcome == UnderAge && storeAfter == st && !FlagSet(s.storage, storeAfter)
  {
    var gate := new Gate.Launch(s, st);
    gate.Submit(monthIn, dayIn, yearIn, birthAge, now, gmt, false);
    ClickUnderAge(s, Launched(s, st), monthIn, dayIn, yearIn, birthAge, now, gmt, false);
    outcome, storeAfter := gate.phase, gate.store;
  }
}
