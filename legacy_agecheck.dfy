/**
 * The older version of the plugin, kept at the repository root: four
 * settings, fixed messages, sessionStorage only, and an under-age answer that
 * is one more error in the list rather than an outcome.
 */
module LegacyAgeCheck {
  import opened Wrappers
  import opened Text
  import opened Validation
  import opened Markup
  import opened Storage

  datatype Settings = Settings(minAge: int, redirectTo: string, title: string, copy: string)

  const Defaults := Settings(21, "", "Age Verification", DefaultCopy)

  /** The validation messages are not configurable in this release. */
  const Messages := ErrorMessages("Day is invalid or empty", "Year is invalid or empty")

  const NotOldEnough := "You are not old enough"

  /** The fixed success message, the same header and body the current release has as its default. */
  const Success := SuccessMsg("Success!", "You are now being redirected back to the application...")

  /**
   * The markup this release appends. The statement building the paragraph
   * ends at its `;`, so the `+ '</p>'` after it is a separate expression and
   * the paragraph is never closed.
   */
  function LegacyDialogHtml(s: Settings): string
  {
    Dialog(s.title, "<p>" + CopyText(s.copy, s.minAge))
  }

  /** `buildHtml` with its `+=` steps and its loop over the months. */
  method BuildHtml(s: Settings) returns (html: string)
    ensures html == LegacyDialogHtml(s)
  {
    html := "";
    html := AppendHead(html, s.title);
    assert html == DialogHead(s.title);
    html := html + ("<p>" + CopyText(s.copy, s.minAge));
    html := AppendTail(html);
  }


  /**
   * The paragraph is never closed: when neither the title nor the copy has a
   * "</p>" of its own, the markup has no "</p>" at all.
   */
  lemma ParagraphLeftOpen(s: Settings)
    requires NoParaClose(s.title) && NoParaClose(s.copy)
    ensures IndexOf(LegacyDialogHtml(s), ParaClose) == None
  {
    OpeningFree(s.title, s.copy, s.minAge);
    NoCloseAnywhere(DialogHead(s.title), CopyText(s.copy, s.minAge));
  }

  /** Whatever the settings, the markup is not the dialog with a closed paragraph. */
  lemma DiffersFromClosedDialog(s: Settings)
    ensures LegacyDialogHtml(s) != Dialog(s.title, "<p>" + CopyText(s.copy, s.minAge) + ParaClose)
  {
    var head, text, tail := DialogHead(s.title), "<p>" + CopyText(s.copy, s.minAge), DialogTail();
    assert |head + (text + ParaClose) + tail| == |head| + |text| + 4 + |tail|;
    assert |head + text + tail| == |head| + |text| + |tail|;
  }

  /** The default dialog of this release has no "</p>". */
  lemma DefaultDialogLeftOpen()
    ensures IndexOf(LegacyDialogHtml(Defaults), ParaClose) == None
  {
    DefaultCopyFree();
    FreeWithout(Defaults.title, '<');
    ParagraphLeftOpen(Defaults);
  }

  /** `handleSuccess` once its timers have run: the fixed message, then the redirect or the removal. */
  function SuccessEffects(s: Settings): (r: seq<Effect>)
    ensures |r| == 2 && r[0] == ReplaceDialog(SuccessHtml(Success))
    ensures s.redirectTo != "" ==> r[|r| - 1] == Navigate(s.redirectTo)
    ensures RemoveDialog in r <==> s.redirectTo == ""
  {
    [ReplaceDialog(SuccessHtml(Success))] + if s.redirectTo != "" then [Navigate(s.redirectTo)] else [RemoveDialog]
  }

  /** Skipped: the flag was set and nothing was rendered; Open: the form takes submits; Succeeded: it is gone. */
  datatype Phase = Skipped | Open | Succeeded

  /** The fields of `_this`, the phase, the session storage area and the effects so far, as one value. */
  datatype View = View(
    month: string,
    day: string,
    year: string,
    age: Option<int>,
    errors: seq<string>,
    errorsShown: string,
    phase: Phase,
    session: map<string, string>,
    effects: seq<Effect>)

  /** The state right after `$.ageCheck(options)` returns. */
  function Launched(area: map<string, string>): View
  {
    View("", "", "", None, [], "", if ItemIs(area, FlagKey, "true") then Skipped else Open, area, [])
  }

  /** `setValues`. */
  function Entered(v: View, monthIn: string, dayIn: string, yearIn: string): View
  {
    v.(month := monthIn, day := StripLeadingZeros(dayIn), year := yearIn)
  }

  /** `validate` with the fixed messages: the list rebuilt from the fields alone, and shown. */
  function Checked(v: View): View
  {
    var errors := ErrorsFor(v.day, v.year, Messages);
    v.(errors := errors, errorsShown := ErrorsHtml(errors))
  }

  /**
   * After a passing validation: `setAge`, then the write and the success, or
   * the under-age message pushed onto the error list and shown again.
   */
  function Concluded(s: Settings, v: View, birthAge: int, writeFails: bool): View
  {
    if birthAge >= s.minAge then
      v.(age := Some(birthAge), phase := Succeeded,
         session := if writeFails then v.session else v.session[FlagKey := "true"],
         effects := v.effects + SuccessEffects(s))
    else
      var errors := v.errors + [NotOldEnough];
      v.(age := Some(birthAge), errors := errors, errorsShown := ErrorsHtml(errors))
  }

  /** The click handler as a function of the state before the click. */
  function Clicked(s: Settings, v: View, monthIn: string, dayIn: string, yearIn: string, birthAge: int,
                   writeFails: bool): View
  {
    var checked := Checked(Entered(v, monthIn, dayIn, yearIn));
    if checked.errors == [] then Concluded(s, checked, birthAge, writeFails) else checked
  }

  /** Every click records the input, and the errors region shows the list the click leaves. */
  lemma ClickRecordsInput(s: Settings, v: View, monthIn: string, dayIn: string, yearIn: string, birthAge: int,
                          writeFails: bool)
    ensures var r := Clicked(s, v, monthIn, dayIn, yearIn, birthAge, writeFails);
            r.month == monthIn && r.day == StripLeadingZeros(dayIn) && r.year == yearIn
            && r.errorsShown == ErrorsHtml(r.errors)
  {
    var c := Checked(Entered(v, monthIn, dayIn, yearIn));
    if c.errors == [] {
      var r := Concluded(s, c, birthAge, writeFails);
      assert r.month == c.month && r.day == c.day && r.year == c.year;
      assert r.errorsShown == ErrorsHtml(r.errors);
    }
  }

  /** A rejected date leaves its errors and changes nothing else: no age, no outcome, no write. */
  lemma ClickRejected(s: Settings, v: View, monthIn: string, dayIn: string, yearIn: string, birthAge: int,
                      writeFails: bool)
    requires !DayValid(StripLeadingZeros(dayIn)) || !YearValid(yearIn)
    ensures var r := Clicked(s, v, monthIn, dayIn, yearIn, birthAge, writeFails);
            r.errors == ErrorsFor(StripLeadingZeros(dayIn), yearIn, Messages) && r.errors != []
            && r.age == v.age && r.phase == v.phase && r.session == v.session && r.effects == v.effects
  {
  }

  /** An accepted date of someone at least `minAge` writes the session flag unless `setItem` throws, and succeeds either way. */
  lemma ClickSucceeds(s: Settings, v: View, monthIn: string, dayIn: string, yearIn: string, birthAge: int,
                      writeFails: bool)
    requires DayValid(StripLeadingZeros(dayIn)) && YearValid(yearIn) && birthAge >= s.minAge
    ensures var r := Clicked(s, v, monthIn, dayIn, yearIn, birthAge, writeFails);
            r.errors == [] && r.age == Some(birthAge) && r.phase == Succeeded
            && r.session == (if writeFails then v.session else v.session[FlagKey := "true"])
            && r.effects == v.effects + SuccessEffects(s)
  {
  }

  /**
   * An accepted date of someone younger than `minAge`: the error list is
   * exactly the under-age message, shown, the form stays open, and nothing
   * is written.
   */
  lemma ClickUnderAge(s: Settings, v: View, monthIn: string, dayIn: string, yearIn: string, birthAge: int,
                      writeFails: bool)
    requires DayValid(StripLeadingZeros(dayIn)) && YearValid(yearIn) && birthAge < s.minAge
    ensures var r := Clicked(s, v, monthIn, dayIn, yearIn, birthAge, writeFails);
            r.errors == [NotOldEnough] && r.errorsShown == ErrorsHtml([NotOldEnough])
            && r.age == Some(birthAge) && r.phase == v.phase && r.session == v.session && r.effects == v.effects
  {
    var c := Checked(Entered(v, monthIn, dayIn, yearIn));
    assert c.errors == [];
    assert c.errors + [NotOldEnough] == [NotOldEnough];
  }

  /**
   * Because `validate` empties the list first, submitting the same under-age
   * date again leaves the state as it was: the message does not pile up.
   */
  lemma UnderAgeRetryIsStable(s: Settings, v: View, monthIn: string, dayIn: string, yearIn: string, birthAge: int,
                              writeFails: bool)
    requires DayValid(StripLeadingZeros(dayIn)) && YearValid(yearIn) && birthAge < s.minAge
    ensures var r := Clicked(s, v, monthIn, dayIn, yearIn, birthAge, writeFails);
            Clicked(s, r, monthIn, dayIn, yearIn, birthAge, writeFails) == r
  {
    var r := Clicked(s, v, monthIn, dayIn, yearIn, birthAge, writeFails);
    ClickUnderAge(s, v, monthIn, dayIn, yearIn, birthAge, writeFails);
    ClickUnderAge(s, r, monthIn, dayIn, yearIn, birthAge, writeFails);
  }

  /** The session changes only on the success path: validation passed and the age reached `minAge`. */
  lemma OnlySuccessWrites(s: Settings, v: View, monthIn: string, dayIn: string, yearIn: string, birthAge: int,
                          writeFails: bool)
    ensures var r := Clicked(s, v, monthIn, dayIn, yearIn, birthAge, writeFails);
            r.session != v.session ==>
              DayValid(StripLeadingZeros(dayIn)) && YearValid(yearIn) && birthAge >= s.minAge
              && r.phase == Succeeded && !writeFails
  {
  }

  /** After a successful click whose write went through, the next invocation returns early. */
  lemma SuccessIsRemembered(s: Settings, v: View, monthIn: string, dayIn: string, yearIn: string, birthAge: int)
    requires DayValid(StripLeadingZeros(dayIn)) && YearValid(yearIn) && birthAge >= s.minAge
    ensures Launched(Clicked(s, v, monthIn, dayIn, yearIn, birthAge, false).session).phase == Skipped
  {
    ClickSucceeds(s, v, monthIn, dayIn, yearIn, birthAge, false);
  }

  /** The state one call of `$.ageCheck` keeps in `_this`, with the session storage area. */
  class Gate {
    const settings: Settings
    var month: string
    var day: string
    var year: string
    var age: Option<int>
    var errors: seq<string>
    var errorsShown: string
    var page: string
    var phase: Phase
    var session: map<string, string>
    var effects: seq<Effect>

    function State(): View
      reads this
    {
      View(month, day, year, age, errors, errorsShown, phase, session, effects)
    }

    /** `$.ageCheck(options)` up to the click handler: return early when verified, else render. */
    constructor Launch(s: Settings, area: map<string, string>)
      ensures settings == s
      ensures State() == Launched(area)
      ensures page == (if ItemIs(area, FlagKey, "true") then "" else LegacyDialogHtml(s))
    {
      var html := Render(s, area);
      settings, session := s, area;
      month, day, year, age := "", "", "", None;
      errors, errorsShown, effects := [], "", [];
      phase := if ItemIs(area, FlagKey, "true") then Skipped else Open;
      page := html;
    }

    method SetValues(monthIn: string, dayIn: string, yearIn: string)
      modifies this`month, this`day, this`year
      ensures State() == Entered(old(State()), monthIn, dayIn, yearIn)
    {
      month := monthIn;
      day := StripLeadingZeros(dayIn);
      year := yearIn;
    }

    /** Rebuilds the error list from empty with the fixed messages, shows it, and passes iff it is empty. */
    method Validate() returns (valid: bool)
      modifies this`errors, this`errorsShown
      ensures State() == Checked(old(State()))
      ensures valid <==> errors == []
    {
      errors := [];
      if !DayValid(day) {
        errors := errors + ["Day is invalid or empty"];
      }
      if !YearValid(year) {
        errors := errors + ["Year is invalid or empty"];
      }
      errorsShown := "";
      var html := RenderErrors(errors);
      errorsShown := html;
      valid := |errors| < 1;
    }

    /** `setSessionStorage(key, val)`: false only when the write throws. */
    method SetSessionStorage(key: string, val: string, writeFails: bool) returns (ok: bool)
      modifies this`session
      ensures ok == !writeFails
      ensures session == if writeFails then old(session) else old(session)[key := val]
    {
      if writeFails {
        return false;
      }
      session := session[key := val];
      return true;
    }

    method HandleSuccess()
      modifies this`phase, this`effects
      ensures phase == Succeeded && effects == old(effects) + SuccessEffects(settings)
    {
      phase := Succeeded;
      effects := effects + SuccessEffects(settings);
    }

    /**
     * The click handler after a passing validation: `setAge`, then either the
     * write and the success, or the under-age message pushed onto the errors.
     */
    method Conclude(birthAge: int, writeFails: bool)
      modifies this`age, this`errors, this`errorsShown, this`phase, this`session, this`effects
      ensures State() == Concluded(settings, old(State()), birthAge, writeFails)
    {
      age := Some(birthAge);
      if birthAge >= settings.minAge {
        var ok := SetSessionStorage("ageVerified", "true", writeFails);
        HandleSuccess();
      } else {
        errors := errors + ["You are not old enough"];
        var html := RenderErrors(errors);
        errorsShown := html;
      }
    }

    /** The click handler; it stays bound after an under-age answer. */
    method Submit(monthIn: string, dayIn: string, yearIn: string, birthAge: int, writeFails: bool)
      requires phase == Open
      modifies this`month, this`day, this`year, this`age, this`errors, this`errorsShown
      modifies this`phase, this`session, this`effects
      ensures State() == Clicked(settings, old(State()), monthIn, dayIn, yearIn, birthAge, writeFails)
    {
      SetValues(monthIn, dayIn, yearIn);
      var valid := Validate();
      if valid {
        Conclude(birthAge, writeFails);
      }
    }
  }

  /** What one invocation appends to the page: nothing when the session already holds the flag. */
  method Render(s: Settings, area: map<string, string>) returns (html: string)
    ensures html == (if ItemIs(area, FlagKey, "true") then "" else LegacyDialogHtml(s))
  {
    if ItemIs(area, "ageVerified", "true") {
      return "";
    }
    html := BuildHtml(s);
  }

  /**
   * The under-age answer is not final: the message joins the error list, the
   * form stays open for another submit, and nothing is remembered.
   */
  method UnderAgeKeepsFormOpen(s: Settings, area: map<string, string>, monthIn: string, dayIn: string, yearIn: string,
                               birthAge: int)
    returns (phase: Phase, shown: string, areaAfter: map<string, string>)
    requires !ItemIs(area, FlagKey, "true")
    requires DayValid(StripLeadingZeros(dayIn)) && YearValid(yearIn) && birthAge < s.minAge
    ensures phase == Open && shown == ErrorsHtml([NotOldEnough])
    ensures areaAfter == area && !ItemIs(areaAfter, FlagKey, "true")
  {
    var gate := new Gate.Launch(s, area);
    ghost var before := gate.State();
    gate.Submit(monthIn, dayIn, yearIn, birthAge, false);
    ClickUnderAge(s, before, monthIn, dayIn, yearIn, birthAge, false);
    phase, shown, areaAfter := gate.phase, gate.errorsShown, gate.session;
  }

  /**
   * On an open form, a visitor old enough who types a valid date passes, and
   * the next invocation over the same session renders nothing.
   */
  method VerifiedVisitorReturns(gate: Gate, monthIn: string, dayIn: string, yearIn: string, birthAge: int)
    returns (first: Phase, second: Phase, secondPage: string)
    requires gate.phase == Open
    requires DayValid(StripLeadingZeros(dayIn)) && YearValid(yearIn) && birthAge >= gate.settings.minAge
    modifies gate
    ensures first == Succeeded && second == Skipped && secondPage == ""
  {
    ghost var before := gate.State();
    gate.Submit(monthIn, dayIn, yearIn, birthAge, false);
    ClickSucceeds(gate.settings, before, monthIn, dayIn, yearIn, birthAge, false);
    first := gate.phase;
    var again := new Gate.Launch(gate.settings, gate.session);
    second, secondPage := again.phase, again.page;
  }
}
