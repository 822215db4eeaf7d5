/**
 * The HTML strings the plugin builds: the error list of `displayErrors`,
 * the month `<option>` entries and the fixed pieces of the dialog built by
 * `buildHtml`, together with readers that take the error list and the
 * options back out of the markup.
 */
module Markup {
  import opened Wrappers
  import opened Text

  // ------------------------------------------------------------ error list

  const ItemOpen := "<li><span>x</span>"
  const ItemClose := "</li>"

  function ErrorItem(msg: string): string
  {
    ItemOpen + msg + ItemClose
  }

  function ErrorItems(errors: seq<string>): string
    decreases |errors|
  {
    if errors == [] then "" else ErrorItem(errors[0]) + ErrorItems(errors[1..])
  }

  /** The markup `displayErrors` puts into the errors region. */
  function ErrorsHtml(errors: seq<string>): (r: string)
    ensures errors == [] <==> r == "<ul></ul>"
  {
    "<ul>" + ErrorItems(errors) + "</ul>"
  }

  lemma {:induction false} ErrorItemsAppend(a: seq<string>, b: seq<string>)
    ensures ErrorItems(a + b) == ErrorItems(a) + ErrorItems(b)
    decreases |a|
  {
    if a == [] {
      assert a + b == b;
    } else {
      ErrorItemsAppend(a[1..], b);
      assert (a + b)[1..] == a[1..] + b;
      Regroup(ErrorItem(a[0]), ErrorItems(a[1..]), ErrorItems(b));
    }
  }

  /** The `+=` loop of `displayErrors`: one list item per error, in list order. */
  method RenderErrors(errors: seq<string>) returns (html: string)
    ensures html == ErrorsHtml(errors)
  {
    html := "<ul>";
    var i := 0;
    while i < |errors|
      invariant 0 <= i <= |errors|
      invariant html == "<ul>" + ErrorItems(errors[..i])
    {
      var item := "<li><span>x</span>" + errors[i] + "</li>";
      html := html + item;
      assert ErrorItems([errors[i]]) == item;
      ErrorItemsAppend(errors[..i], [errors[i]]);
      assert errors[..i + 1] == errors[..i] + [errors[i]];
      i := i + 1;
    }
    assert errors[..i] == errors;
    html := html + "</ul>";
  }

  /** Reads the list items back: each message runs up to the next "</li>". */
  function ParseErrorItems(s: string): Option<seq<string>>
    decreases |s|
  {
    if s == [] then Some([])
    else if !StartsWith(s, ItemOpen) then None
    else
      var rest := s[|ItemOpen|..];
      match IndexOf(rest, ItemClose)
      case None => None
      case Some(k) =>
        match ParseErrorItems(rest[k + |ItemClose|..])
        case None => None
        case Some(msgs) => Some([rest[..k]] + msgs)
  }

  function ParseErrorsHtml(html: string): Option<seq<string>>
  {
    if |html| >= 9 && StartsWith(html, "<ul>") && html[|html| - 5..] == "</ul>"
    then ParseErrorItems(html[4..|html| - 5])
    else None
  }

  predicate NoMarkup(msgs: seq<string>)
  {
    forall k :: 0 <= k < |msgs| ==> '<' !in msgs[k]
  }

  lemma {:induction false} ErrorItemsRoundTrip(errors: seq<string>)
    requires NoMarkup(errors)
    ensures ParseErrorItems(ErrorItems(errors)) == Some(errors)
    decreases |errors|
  {
    if errors != [] {
      var m := errors[0];
      var tail := ErrorItems(errors[1..]);
      var s := ErrorItems(errors);
      assert s == ItemOpen + (m + ItemClose + tail);
      assert s[|ItemOpen|..] == m + ItemClose + tail;
      NotInsidePrefix(m, ItemClose, tail);
      FirstOccurrence(m, ItemClose, tail);
      assert (m + ItemClose + tail)[|m| + |ItemClose|..] == tail;
      assert (m + ItemClose + tail)[..|m|] == m;
      ErrorItemsRoundTrip(errors[1..]);
      assert errors == [m] + errors[1..];
    }
  }

  /**
   * The error markup determines the error list: messages without '<' are read
   * back exactly, in order.
   */
  lemma ErrorsHtmlRoundTrip(errors: seq<string>)
    requires NoMarkup(errors)
    ensures ParseErrorsHtml(ErrorsHtml(errors)) == Some(errors)
  {
    var h := ErrorsHtml(errors);
    assert h[4..|h| - 5] == ErrorItems(errors);
    assert h[..4] == "<ul>";
    ErrorItemsRoundTrip(errors);
  }

  // --------------------------------------------------------- month options

  /** The captions of the month selector, in calendar order from 0. */
  function MonthName(k: nat): string
    requires k < 12
  {
    match k
    case 0 => "January"   case 1 => "February"  case 2 => "March"
    case 3 => "April"     case 4 => "May"       case 5 => "June"
    case 6 => "July"      case 7 => "August"    case 8 => "September"
    case 9 => "October"   case 10 => "November" case _ => "December"
  }

  function MonthNames(): (names: seq<string>)
    ensures |names| == 12 && forall k :: 0 <= k < 12 ==> names[k] == MonthName(k)
  {
    seq(12, k requires 0 <= k < 12 => MonthName(k))
  }

  const OptionOpen := "<option value=\""
  const OptionMid := "\">"
  const OptionClose := "</option>"

  function OptionTag(value: nat, caption: string): string
  {
    OptionOpen + NatToString(value) + OptionMid + caption + OptionClose
  }

  /** The options for captions, valued first, first + 1, ... in order. */
  function OptionsFrom(captions: seq<string>, first: nat): string
    decreases |captions|
  {
    if captions == [] then "" else OptionTag(first, captions[0]) + OptionsFrom(captions[1..], first + 1)
  }

  lemma {:induction false} OptionsFromAppend(a: seq<string>, b: seq<string>, first: nat)
    ensures OptionsFrom(a + b, first) == OptionsFrom(a, first) + OptionsFrom(b, first + |a|)
    decreases |a|
  {
    if a == [] {
      assert a + b == b;
    } else {
      OptionsFromAppend(a[1..], b, first + 1);
      assert (a + b)[1..] == a[1..] + b;
      Regroup(OptionTag(first, a[0]), OptionsFrom(a[1..], first + 1), OptionsFrom(b, first + |a|));
    }
  }

  /** The month selector's options. */
  function MonthOptions(): string
  {
    OptionsFrom(MonthNames(), 0)
  }

  /** The `for` loop of `buildHtml`: one option per caption, valued by its position. */
  method AppendOptions(html: string, captions: seq<string>) returns (out: string)
    ensures out == html + OptionsFrom(captions, 0)
  {
    out := html;
    for i := 0 to |captions|
      invariant out == html + OptionsFrom(captions[..i], 0)
    {
      var option := "<option value=\"" + NatToString(i) + "\">" + captions[i] + "</option>";
      out := out + option;
      assert OptionsFrom([captions[i]], i) == option;
      OptionsFromAppend(captions[..i], [captions[i]], 0);
      assert captions[..i + 1] == captions[..i] + [captions[i]];
    }
    assert captions[..|captions|] == captions;
  }

  /** Reads one option off the front: its (value, caption) pair and what follows it. */
  function ParseOption(s: string): (r: Option<((nat, string), string)>)
    ensures r.Some? ==> |r.value.1| < |s|
  {
    if !StartsWith(s, OptionOpen) then None
    else
      var rest := s[|OptionOpen|..];
      match IndexOf(rest, OptionMid)
      case None => None
      case Some(v) =>
        var value := rest[..v];
        var after := rest[v + |OptionMid|..];
        if !AllDigits(value) then None
        else
          match IndexOf(after, OptionClose)
          case None => None
          case Some(l) => Some(((ParseDecimal(value), after[..l]), after[l + |OptionClose|..]))
  }

  /** Reads options back as (value, caption) pairs. */
  function ParseOptions(s: string): Option<seq<(nat, string)>>
    decreases |s|
  {
    if s == [] then Some([])
    else
      match ParseOption(s)
      case None => None
      case Some((opt, rest)) =>
        match ParseOptions(rest)
        case None => None
        case Some(opts) => Some([opt] + opts)
  }

  /** The pairs (first, captions[0]), (first + 1, captions[1]), ... */
  function Numbered(captions: seq<string>, first: nat): (r: seq<(nat, string)>)
    ensures |r| == |captions|
    ensures forall k :: 0 <= k < |captions| ==> r[k] == (first + k, captions[k])
    decreases |captions|
  {
    if captions == [] then [] else [(first, captions[0])] + Numbered(captions[1..], first + 1)
  }

  /** An option whose caption holds no markup reads back as its value and caption, leaving what follows. */
  lemma OptionParses(value: nat, caption: string, tail: string)
    requires '<' !in caption
    ensures ParseOption(OptionTag(value, caption) + tail) == Some(((value, caption), tail))
  {
    var after := caption + OptionClose + tail;
    OptionTagSplit(value, caption, tail);
    OptionValueParts(value, after);
    CaptionParts(caption, tail);
    DecimalRoundTrip(value);
  }

  lemma OptionTagSplit(value: nat, caption: string, tail: string)
    ensures OptionTag(value, caption) + tail == OptionOpen + NatToString(value) + OptionMid + (caption + OptionClose + tail)
  {
  }

  /** The value between the opening and `">` is found and read off. */
  lemma OptionValueParts(value: nat, after: string)
    ensures var s := OptionOpen + NatToString(value) + OptionMid + after;
            StartsWith(s, OptionOpen)
            && IndexOf(s[|OptionOpen|..], OptionMid) == Some(|NatToString(value)|)
            && s[|OptionOpen|..][..|NatToString(value)|] == NatToString(value)
            && s[|OptionOpen|..][|NatToString(value)| + |OptionMid|..] == after
  {
    var digits := NatToString(value);
    var s := OptionOpen + digits + OptionMid + after;
    var rest := digits + OptionMid + after;
    assert s == OptionOpen + rest;
    assert s[|OptionOpen|..] == rest;
    assert s[..|OptionOpen|] == OptionOpen;
    assert '"' !in digits by {
      forall i | 0 <= i < |digits| ensures digits[i] != '"' { assert IsDigit(digits[i]); }
    }
    NotInsidePrefix(digits, OptionMid, after);
    FirstOccurrence(digits, OptionMid, after);
    assert rest[..|digits|] == digits;
    assert rest[|digits| + |OptionMid|..] == after;
  }

  /** The caption runs up to the first `</option>`, which it cannot contain. */
  lemma CaptionParts(caption: string, tail: string)
    requires '<' !in caption
    ensures var after := caption + OptionClose + tail;
            IndexOf(after, OptionClose) == Some(|caption|)
            && after[..|caption|] == caption
            && after[|caption| + |OptionClose|..] == tail
  {
    var after := caption + OptionClose + tail;
    NotInsidePrefix(caption, OptionClose, tail);
    FirstOccurrence(caption, OptionClose, tail);
    assert after[..|caption|] == caption;
    assert after[|caption| + |OptionClose|..] == tail;
  }

  lemma {:induction false} OptionsRoundTrip(captions: seq<string>, first: nat)
    requires NoMarkup(captions)
    ensures ParseOptions(OptionsFrom(captions, first)) == Some(Numbered(captions, first))
    decreases |captions|
  {
    if captions != [] {
      var tail := OptionsFrom(captions[1..], first + 1);
      OptionParses(first, captions[0], tail);
      OptionsRoundTrip(captions[1..], first + 1);
    }
  }

  /** The month selector reads back as exactly twelve options: value k labelled with month k, for k in 0..11. */
  lemma MonthOptionsRoundTrip()
    ensures ParseOptions(MonthOptions()) == Some(seq(12, k requires 0 <= k < 12 => (k as nat, MonthName(k))))
  {
    var names := MonthNames();
    forall k | 0 <= k < 12 ensures '<' !in names[k] {
      MonthNameNoMarkup(k);
    }
    OptionsRoundTrip(names, 0);
    MonthsNumbered();
  }

  lemma MonthsNumbered()
    ensures Numbered(MonthNames(), 0) == seq(12, k requires 0 <= k < 12 => (k as nat, MonthName(k)))
  {
    var r := Numbered(MonthNames(), 0);
    var t := seq(12, k requires 0 <= k < 12 => (k as nat, MonthName(k)));
    forall k | 0 <= k < 12 ensures r[k] == t[k] {
    }
  }

  lemma MonthNameNoMarkup(k: nat)
    requires k < 12
    ensures '<' !in MonthName(k)
  {
  }

  // ----------------------------------------------------- dialog and outcome

  const AgeToken := "[21]"

  /** The `<strong>` element that replaces the age token. */
  function StrongAge(minAge: int): string
  {
    "<strong>" + IntToString(minAge) + "</strong>"
  }

  /** `copy.replace('[21]', '<strong>' + minAge + '</strong>')`. */
  function CopyText(copy: string, minAge: int): (r: string)
    ensures (forall j :: !OccursAt(copy, AgeToken, j)) ==> r == copy
  {
    SubstituteFirst(copy, AgeToken, StrongAge(minAge))
  }

  /** The default copy of both releases, around its age token. */
  const CopyLead := "This Website requires you to be "
  const CopyRest := CopyAfterToken + CopyBirth + CopyClosing
  const CopyAfterToken := " years or older to enter. Please enter your"
  const CopyBirth := " Date of Birth in the"
  const CopyClosing := " fields below in order to continue:"
  const DefaultCopy := CopyLead + AgeToken + CopyRest

  /** In the default copy the token is replaced by the age in bold, and the text around it is kept. */
  lemma DefaultCopyText(minAge: int)
    ensures CopyText(DefaultCopy, minAge) == CopyLead + StrongAge(minAge) + CopyRest
  {
    assert '[' !in CopyLead;
    NotInsidePrefix(CopyLead, AgeToken, CopyRest);
    SubstituteFirstAt(CopyLead, AgeToken, CopyRest, StrongAge(minAge));
  }

  lemma DefaultCopyAt21()
    ensures CopyText(DefaultCopy, 21) == CopyLead + "<strong>21</strong>" + CopyRest
  {
    DefaultCopyText(21);
    StrongAge21();
  }

  lemma StrongAge21()
    ensures StrongAge(21) == "<strong>21</strong>"
  {
    assert IntToString(21) == "21";
  }

  /** The default copy has no markup at all, so no "</p>". */
  lemma DefaultCopyFree()
    ensures NoParaClose(DefaultCopy)
  {
    FreeWithout(CopyLead, '<');
    FreeWithout(AgeToken, '<');
    CopyRestFree();
    ConcatFree(CopyLead, AgeToken);
    ConcatFree(CopyLead + AgeToken, CopyRest);
  }

  lemma CopyRestFree()
    ensures NoParaClose(CopyRest)
  {
    FreeWithout(CopyAfterToken, '<');
    FreeWithout(CopyBirth, '<');
    FreeWithout(CopyClosing, '<');
    ConcatFree(CopyAfterToken, CopyBirth);
    ConcatFree(CopyAfterToken + CopyBirth, CopyClosing);
  }

  const Overlay := "<div class=\"ac-overlay\"></div>"
  const ContainerOpen := "<div class=\"ac-container\">"

  /** Overlay, container opening and title. */
  function DialogHead(title: string): string
  {
    Overlay + ContainerOpen + ("<h2>" + title + "</h2>")
  }

  const ErrorsRegion := "<div class=\"errors\"></div>"
  const FieldsOpen := "<div class=\"fields\"><select class=\"month\">"
  // The two inputs are written in two parts, the second from the placeholder attribute on.
  const DayInput := "<input class=\"day\" maxlength=\"2\" " + "placeholder=\"01\" />"
  const YearInput := "<input class=\"year\" maxlength=\"4\" " + "placeholder=\"1989\"/>"
  const SelectClose := "</select>"
  const FieldsClose := "<button>Submit</button></div></div>"

  /** Everything after the paragraph: errors region, month selector, day and year inputs, button. */
  function DialogTail(): string
  {
    ErrorsRegion + FieldsOpen + MonthOptions() + SelectClose + DayInput + YearInput + FieldsClose
  }

  /** The first `+=` steps of `buildHtml`: overlay, container, title. */
  method AppendHead(html: string, title: string) returns (out: string)
    ensures out == html + DialogHead(title)
  {
    out := html + Overlay;
    out := out + ContainerOpen;
    Regroup(html, Overlay, ContainerOpen);
    out := out + ("<h2>" + title + "</h2>");
    Regroup(html, Overlay + ContainerOpen, "<h2>" + title + "</h2>");
  }

  /**
   * The `+=` steps of `buildHtml` after the paragraph, the same in both
   * releases: errors region, month selector with its loop, inputs, button.
   */
  method AppendTail(html: string) returns (out: string)
    ensures out == html + DialogTail()
  {
    out := html + ErrorsRegion;
    ghost var tail := ErrorsRegion;
    out := out + FieldsOpen;
    Regroup(html, tail, FieldsOpen);
    tail := tail + FieldsOpen;
    out := AppendOptions(out, MonthNames());
    Regroup(html, tail, MonthOptions());
    tail := tail + MonthOptions();
    out := out + SelectClose;
    Regroup(html, tail, SelectClose);
    tail := tail + SelectClose;
    out := out + DayInput;
    Regroup(html, tail, DayInput);
    tail := tail + DayInput;
    out := out + YearInput;
    Regroup(html, tail, YearInput);
    tail := tail + YearInput;
    out := out + FieldsClose;
    Regroup(html, tail, FieldsClose);
  }

  /** The dialog markup around a given paragraph, in the order `buildHtml` appends the pieces. */
  function Dialog(title: string, paragraph: string): string
  {
    DialogHead(title) + paragraph + DialogTail()
  }

  // ---------------------------------------------------- closing paragraphs

  const ParaClose := "</p>"

  /** No "</p>" anywhere in s. */
  ghost predicate NoParaClose(s: string)
  {
    forall j: nat :: !OccursAt(s, ParaClose, j)
  }

  /** No "</p>" can start at the end of a and finish at the start of b. */
  predicate Seam(a: string, b: string)
  {
    a == [] || b == []
    || !(a[|a| - 1] == '<' || a[|a| - 1] == '/' || a[|a| - 1] == 'p')
    || !(b[0] == '/' || b[0] == 'p' || b[0] == '>')
  }

  /** "</p>" occurs at j exactly when its four characters are there. */
  lemma ParaCloseAt(s: string, j: nat)
    ensures OccursAt(s, ParaClose, j)
        <==> j + 4 <= |s| && s[j] == '<' && s[j + 1] == '/' && s[j + 2] == 'p' && s[j + 3] == '>'
  {
    if j + 4 <= |s| {
      var w := s[j..j + 4];
      assert w[0] == s[j] && w[1] == s[j + 1] && w[2] == s[j + 2] && w[3] == s[j + 3];
      if s[j] == '<' && s[j + 1] == '/' && s[j + 2] == 'p' && s[j + 3] == '>' {
        assert w == ParaClose;
      }
    }
  }

  /** A string lacking one of the characters of "</p>" has no "</p>". */
  lemma FreeWithout(s: string, c: char)
    requires c == '<' || c == '/' || c == 'p' || c == '>'
    requires c !in s
    ensures NoParaClose(s)
  {
    forall j: nat
      ensures !OccursAt(s, ParaClose, j)
    {
      ParaCloseAt(s, j);
    }
  }

  /** A string in which '/' is never followed by 'p' has no "</p>". */
  lemma FreeOfSlashP(s: string)
    requires forall i :: 0 <= i < |s| - 1 && s[i] == '/' ==> s[i + 1] != 'p'
    ensures NoParaClose(s)
  {
    forall j: nat
      ensures !OccursAt(s, ParaClose, j)
    {
      ParaCloseAt(s, j);
    }
  }

  /** Where a has no "</p>" and the seam cannot make one, no occurrence starts inside a. */
  lemma PrefixFree(a: string, b: string)
    requires NoParaClose(a) && Seam(a, b)
    ensures forall j :: 0 <= j < |a| ==> !OccursAt(a + b, ParaClose, j)
  {
    forall j | 0 <= j < |a|
      ensures !OccursAt(a + b, ParaClose, j)
    {
      ParaCloseAt(a + b, j);
      ParaCloseAt(a, j);
    }
  }

  lemma ConcatFree(a: string, b: string)
    requires NoParaClose(a) && NoParaClose(b) && Seam(a, b)
    ensures NoParaClose(a + b)
  {
    PrefixFree(a, b);
    forall j: nat | |a| <= j
      ensures !OccursAt(a + b, ParaClose, j)
    {
      ParaCloseAt(a + b, j);
      ParaCloseAt(b, j - |a|);
    }
  }

  lemma SliceFree(s: string, lo: nat, hi: nat)
    requires lo <= hi <= |s| && NoParaClose(s)
    ensures NoParaClose(s[lo..hi])
  {
    forall j: nat
      ensures !OccursAt(s[lo..hi], ParaClose, j)
    {
      ParaCloseAt(s[lo..hi], j);
      ParaCloseAt(s, lo + j);
    }
  }

  lemma StrongAgeFree(minAge: int)
    ensures NoParaClose(StrongAge(minAge))
  {
    var digits := IntToString(minAge);
    assert '<' !in digits by {
      if minAge < 0 {
        assert digits == "-" + NatToString(-minAge);
      }
    }
    FreeWithout("<strong>", 'p');
    FreeWithout(digits, '<');
    FreeWithout("</strong>", 'p');
    ConcatFree("<strong>", digits);
    ConcatFree("<strong>" + digits, "</strong>");
  }

  /** Replacing the age token cannot create a "</p>" that the copy did not have. */
  lemma CopyFree(copy: string, minAge: int)
    requires NoParaClose(copy)
    ensures NoParaClose(CopyText(copy, minAge))
  {
    match IndexOf(copy, AgeToken)
    case None =>
    case Some(i) =>
      var pre, post := copy[..i], copy[i + |AgeToken|..];
      SliceFree(copy, 0, i);
      assert copy[0..i] == pre;
      SliceFree(copy, i + |AgeToken|, |copy|);
      assert copy[i + |AgeToken|..|copy|] == post;
      StrongAgeFree(minAge);
      ConcatFree(pre, StrongAge(minAge));
      ConcatFree(pre + StrongAge(minAge), post);
  }

  lemma HeadFree(title: string)
    requires NoParaClose(title)
    ensures NoParaClose(DialogHead(title))
  {
    FreeWithout(Overlay, 'p');
    FreeWithout(ContainerOpen, 'p');
    FreeWithout("<h2>", 'p');
    FreeWithout("</h2>", 'p');
    ConcatFree(Overlay, ContainerOpen);
    ConcatFree("<h2>", title);
    ConcatFree("<h2>" + title, "</h2>");
    ConcatFree(Overlay + ContainerOpen, "<h2>" + title + "</h2>");
  }

  /** The dialog up to and including the copy has no "</p>" when the title and the copy have none. */
  lemma OpeningFree(title: string, copy: string, minAge: int)
    requires NoParaClose(title) && NoParaClose(copy)
    ensures NoParaClose(DialogHead(title) + "<p>" + CopyText(copy, minAge))
  {
    HeadFree(title);
    CopyFree(copy, minAge);
    FreeWithout("<p>", '/');
    ConcatFree(DialogHead(title), "<p>");
    ConcatFree(DialogHead(title) + "<p>", CopyText(copy, minAge));
  }

  /**
   * When the dialog up to the copy has no "</p>", the first "</p>" of the
   * dialog with a closed paragraph is the one after the copy, and the errors
   * region follows it.
   */
  lemma FirstCloseAfter(head: string, copy: string)
    requires NoParaClose(head + "<p>" + copy)
    ensures var opening := head + "<p>" + copy;
            var html := head + ("<p>" + copy + ParaClose) + DialogTail();
            IndexOf(html, ParaClose) == Some(|opening|) && html[..|opening|] == opening
            && StartsWith(html[|opening| + |ParaClose|..], ErrorsRegion)
  {
    var opening := head + "<p>" + copy;
    var html := head + ("<p>" + copy + ParaClose) + DialogTail();
    Regroup(head, "<p>", copy);
    Regroup(head, "<p>" + copy, ParaClose);
    assert html == opening + ParaClose + DialogTail();
    PrefixFree(opening, ParaClose + DialogTail());
    Regroup(opening, ParaClose, DialogTail());
    FirstOccurrence(opening, ParaClose, DialogTail());
    assert html[..|opening|] == opening;
    assert html[|opening| + |ParaClose|..] == DialogTail();
    TailStartsWithErrors();
  }

  lemma TailStartsWithErrors()
    ensures StartsWith(DialogTail(), ErrorsRegion)
  {
    var t := ErrorsRegion;
    assert t[..|ErrorsRegion|] == ErrorsRegion;
    PrefixOfConcat(ErrorsRegion, t, FieldsOpen);
    t := t + FieldsOpen;
    PrefixOfConcat(ErrorsRegion, t, MonthOptions());
    t := t + MonthOptions();
    PrefixOfConcat(ErrorsRegion, t, SelectClose);
    t := t + SelectClose;
    PrefixOfConcat(ErrorsRegion, t, DayInput);
    t := t + DayInput;
    PrefixOfConcat(ErrorsRegion, t, YearInput);
    t := t + YearInput;
    PrefixOfConcat(ErrorsRegion, t, FieldsClose);
  }

  lemma PrefixOfConcat(p: string, x: string, y: string)
    requires StartsWith(x, p)
    ensures StartsWith(x + y, p)
  {
    assert (x + y)[..|p|] == x[..|p|];
  }

  /** Without a "</p>" up to the copy, the dialog with an unclosed paragraph has none at all. */
  lemma NoCloseAnywhere(head: string, copy: string)
    requires NoParaClose(head + "<p>" + copy)
    ensures IndexOf(head + ("<p>" + copy) + DialogTail(), ParaClose) == None
  {
    Regroup(head, "<p>", copy);
    TailFree();
    ConcatFree(head + "<p>" + copy, DialogTail());
  }

  lemma OptionTagFree(value: nat, caption: string)
    requires '<' !in caption
    ensures NoParaClose(OptionTag(value, caption))
    ensures OptionTag(value, caption)[|OptionTag(value, caption)| - 1] == '>'
  {
    var digits := NatToString(value);
    FreeWithout(OptionOpen, '/');
    FreeWithout(digits, '<');
    FreeWithout(OptionMid, '<');
    FreeWithout(caption, '<');
    FreeOfSlashP(OptionClose);
    ConcatFree(OptionOpen, digits);
    ConcatFree(OptionOpen + digits, OptionMid);
    ConcatFree(OptionOpen + digits + OptionMid, caption);
    ConcatFree(OptionOpen + digits + OptionMid + caption, OptionClose);
  }

  lemma {:induction false} OptionsFree(captions: seq<string>, first: nat)
    requires NoMarkup(captions)
    ensures NoParaClose(OptionsFrom(captions, first))
    decreases |captions|
  {
    if captions != [] {
      OptionTagFree(first, captions[0]);
      OptionsFree(captions[1..], first + 1);
      ConcatFree(OptionTag(first, captions[0]), OptionsFrom(captions[1..], first + 1));
    }
  }

  /** An input element: its opening, up to a blank, has no '/', and from the placeholder on there is no '<'. */
  lemma InputFree(opening: string, rest: string)
    requires '/' !in opening && '<' !in rest && opening != [] && opening[|opening| - 1] == ' '
    ensures NoParaClose(opening + rest)
  {
    FreeWithout(opening, '/');
    FreeWithout(rest, '<');
    ConcatFree(opening, rest);
  }

  lemma DayInputFree()
    ensures NoParaClose(DayInput)
  {
    InputFree("<input class=\"day\" maxlength=\"2\" ", "placeholder=\"01\" />");
  }

  lemma YearInputFree()
    ensures NoParaClose(YearInput)
  {
    InputFree("<input class=\"year\" maxlength=\"4\" ", "placeholder=\"1989\"/>");
  }

  lemma FieldsFree()
    ensures NoParaClose(FieldsOpen) && NoParaClose(FieldsClose)
  {
    FreeWithout(FieldsOpen, 'p');
    FreeWithout(FieldsClose, 'p');
  }

  lemma TailPiecesFree()
    ensures NoParaClose(ErrorsRegion) && NoParaClose(FieldsOpen) && NoParaClose(SelectClose)
    ensures NoParaClose(DayInput) && NoParaClose(YearInput) && NoParaClose(FieldsClose)
  {
    FreeWithout(ErrorsRegion, 'p');
    FreeWithout(SelectClose, 'p');
    FieldsFree();
    DayInputFree();
    YearInputFree();
  }

  /** Nothing after the paragraph has a "</p>": no month name, input or button closes one. */
  lemma TailFree()
    ensures NoParaClose(DialogTail())
    ensures DialogTail()[0] == '<'
  {
    forall k | 0 <= k < 12 {
      MonthNameNoMarkup(k);
    }
    OptionsFree(MonthNames(), 0);
    TailPiecesFree();
    var t := ErrorsRegion + FieldsOpen;
    ConcatFree(ErrorsRegion, FieldsOpen);
    ConcatFree(t, MonthOptions());
    t := t + MonthOptions();
    ConcatFree(t, SelectClose);
    t := t + SelectClose;
    ConcatFree(t, DayInput);
    t := t + DayInput;
    ConcatFree(t, YearInput);
    t := t + YearInput;
    ConcatFree(t, FieldsClose);
  }

  /** The success message: a header and a body. */
  datatype SuccessMsg = SuccessMsg(header: string, body: string)

  /** The markup the dialog's content is replaced with on success. */
  function SuccessHtml(m: SuccessMsg): string
  {
    "<h3>" + m.header + "</h3><p>" + m.body + "</p>"
  }

  /** What becomes of the page once an outcome has played out (timers elapsed). */
  datatype Effect =
    | ReplaceDialog(html: string)   // the container's content is replaced
    | Navigate(url: string)         // window.location.replace(url)
    | RemoveDialog                  // overlay and container removed
    | SuccessCallback
    | UnderAgeCallback
}
