/**
 * The one persisted fact, "the visitor is verified", kept under the key
 * `ageVerified` in sessionStorage or localStorage, or as a cookie of that
 * name. `getStorage` reads it and `setStorage` writes it.
 */
module Storage {
  import opened Wrappers
  import opened Text

  /** The `storage` setting. */
  datatype Backend = SessionStorage | LocalStorage | Cookie

  /**
   * The `storageExpires` setting: a whole number of days, or a falsy value
   * other than a number (null, the default, false, undefined, '' or NaN)
   * carried as the text JavaScript concatenates for it.
   */
  datatype Expires = Unset(text: FalsyText) | Days(n: int)

  /** What JavaScript's `+` makes of a falsy value other than a number. */
  type FalsyText = t: string | t in {"null", "undefined", "false", "", "NaN"} witness "null"

  /**
   * What the browser holds: the two Web Storage areas, the cookie string that
   * reading `document.cookie` returns, and every string assigned to
   * `document.cookie` so far.
   */
  datatype Store = Store(
    session: map<string, string>,
    local: map<string, string>,
    cookie: string,
    cookieWrites: seq<string>)

  const FlagKey := "ageVerified"
  const CookiePrefix := "ageVerified="
  const DayMs := 24 * 60 * 60 * 1000

  // ------------------------------------------------------------------ read

  predicate IsFlagSegment(segment: string)
  {
    StartsWith(Trim(segment), CookiePrefix)
  }

  /** `segments.filter(keep).length`: positive exactly when some segment is kept. */
  function CountWhere(segments: seq<string>, keep: string -> bool): (n: nat)
    ensures n <= |segments|
    ensures n > 0 <==> exists k :: 0 <= k < |segments| && keep(segments[k])
    decreases |segments|
  {
    if segments == [] then 0
    else (if keep(segments[0]) then 1 else 0) + CountWhere(segments[1..], keep)
  }

  lemma CountWherePositive(segments: seq<string>, keep: string -> bool, k: nat)
    requires k < |segments| && keep(segments[k])
    ensures CountWhere(segments, keep) > 0
  {
  }

  /** `document.cookie.split(';').filter(item => item.trim().startsWith('ageVerified=')).length` */
  function CookieFlagCount(cookie: string): nat
  {
    CountWhere(Split(cookie, ';'), IsFlagSegment)
  }

  /** `area.getItem(key) === val`; a missing key reads as null. */
  predicate ItemIs(area: map<string, string>, key: string, val: string)
  {
    key in area && area[key] == val
  }

  /** `getStorage()`, read as a truth value. */
  predicate FlagSet(backend: Backend, st: Store)
    ensures backend != Cookie && FlagSet(backend, st) ==>
      FlagKey in (if backend == SessionStorage then st.session else st.local)
  {
    match backend
    case Cookie => CookieFlagCount(st.cookie) > 0
    case SessionStorage => ItemIs(st.session, FlagKey, "true")
    case LocalStorage => ItemIs(st.local, FlagKey, "true")
  }

  /** With the cookie backend the flag is set exactly when some `;`-separated segment is a flag segment. */
  lemma CookieFlagSetIff(st: Store)
    ensures FlagSet(Cookie, st)
        <==> exists k :: 0 <= k < |Split(st.cookie, ';')| && IsFlagSegment(Split(st.cookie, ';')[k])
  {
  }

  /** Web Storage counts only the exact value "true": "True", "1" or "true " leave the visitor unverified. */
  lemma OnlyExactTrueCounts(st: Store, v: string)
    requires v != "true"
    ensures !FlagSet(SessionStorage, st.(session := st.session[FlagKey := v]))
    ensures !FlagSet(LocalStorage, st.(local := st.local[FlagKey := v]))
  {
  }

  /**
   * A cookie string counts as verified as soon as one of its segments, after
   * leading blanks, starts with "ageVerified=", whatever follows: a cookie
   * "ageVerified=false" counts too.
   */
  lemma FlagSegmentSeen(blanks: string, value: string)
    requires ';' !in value
    requires forall i :: 0 <= i < |blanks| ==> IsSpace(blanks[i])
    ensures CookieFlagCount(blanks + CookiePrefix + value) > 0
  {
    var segment := blanks + CookiePrefix + value;
    FlagSegmentShape(blanks, value);
    SplitFree(segment, ';');
    CountWherePositive(Split(segment, ';'), IsFlagSegment, 0);
  }

  /** The same holds for a flag segment after any other cookies. */
  lemma FlagSegmentSeenAfter(before: string, blanks: string, value: string)
    requires ';' !in value
    requires forall i :: 0 <= i < |blanks| ==> IsSpace(blanks[i])
    ensures CookieFlagCount(before + ";" + blanks + CookiePrefix + value) > 0
  {
    var segment := blanks + CookiePrefix + value;
    FlagSegmentShape(blanks, value);
    Regroup(before + ";", blanks, CookiePrefix);
    Regroup(before + ";", blanks + CookiePrefix, value);
    SplitLast(before, segment);
    CountWherePositive(Split(before + [';'] + segment, ';'), IsFlagSegment, |Split(before, ';')|);
  }

  lemma SplitLast(before: string, segment: string)
    requires ';' !in segment
    ensures |Split(before + [';'] + segment, ';')| == |Split(before, ';')| + 1
    ensures Split(before + [';'] + segment, ';')[|Split(before, ';')|] == segment
  {
    SplitConcat(before, segment, ';');
    SplitFree(segment, ';');
  }

  /** Blanks, then "ageVerified=", then anything without ';' is one flag segment. */
  lemma FlagSegmentShape(blanks: string, value: string)
    requires ';' !in value
    requires forall i :: 0 <= i < |blanks| ==> IsSpace(blanks[i])
    ensures ';' !in blanks + CookiePrefix + value
    ensures IsFlagSegment(blanks + CookiePrefix + value)
  {
    var segment := blanks + CookiePrefix + value;
    forall i | 0 <= i < |segment| ensures segment[i] != ';' {
      if i < |blanks| {
        assert IsSpace(segment[i]);
      } else if i >= |blanks| + |CookiePrefix| {
        assert segment[i] == value[i - |blanks| - |CookiePrefix|];
      }
    }
    assert segment == blanks + (CookiePrefix + value);
    DropWhileAfter(blanks, CookiePrefix + value, IsSpace);
    TrimStartsWith(segment, CookiePrefix);
    assert (CookiePrefix + value)[..|CookiePrefix|] == CookiePrefix;
  }

  // ----------------------------------------------------------------- write

  /** The instant the cookie expires at, when `expires` is truthy (a non-zero number). */
  function ExpiryInstant(e: Expires, now: int): (t: Option<int>)
    ensures t.Some? <==> e.Days? && e.n != 0
    ensures t.Some? ==> t.value - now == e.n * DayMs
  {
    if e.Days? && e.n != 0 then Some(now + e.n * DayMs) else None
  }

  /** The text after "expires=": the GMT form of the instant, or the falsy value itself. */
  function ExpiresText(e: Expires, now: int, gmt: int -> string): string
  {
    match ExpiryInstant(e, now)
    case Some(t) => gmt(t)
    case None => if e.Unset? then e.text else "0"
  }

  /** The string assigned to `document.cookie`. */
  function CookieString(e: Expires, now: int, gmt: int -> string): (r: string)
    ensures StartsWith(r, CookiePrefix + "true;") && r[|r| - 1] == ';'
  {
    CookiePrefix + "true" + ";" + " expires=" + ExpiresText(e, now, gmt) + ";"
  }

  /** A falsy `expires` reaches the cookie as its own text: "expires=null", "expires=0". */
  lemma FalsyExpiryWrittenAsIs(text: FalsyText, now: int, gmt: int -> string)
    ensures CookieString(Unset(text), now, gmt) == CookiePrefix + "true; expires=" + text + ";"
    ensures CookieString(Days(0), now, gmt) == CookiePrefix + "true; expires=0;"
  {
  }

  /** A non-zero number of days reaches the cookie as the GMT form of now plus that many days. */
  lemma TruthyExpiryWritten(n: int, now: int, gmt: int -> string)
    requires n != 0
    ensures CookieString(Days(n), now, gmt) == CookiePrefix + "true; expires=" + gmt(now + n * DayMs) + ";"
  {
  }

  /** The string `setStorage` writes, read back as a cookie string, reports the flag. */
  lemma CookieStringCarriesFlag(e: Expires, now: int, gmt: int -> string)
    ensures CookieFlagCount(CookieString(e, now, gmt)) > 0
  {
    var segment := CookiePrefix + "true";
    var expires := ExpiresText(e, now, gmt);
    Regroup(segment + ";", " expires=", expires);
    Regroup(segment + ";", " expires=" + expires, ";");
    FlagSegmentShape([], "true");
    assert [] + CookiePrefix + "true" == segment;
    SegmentFirst(segment, " expires=" + expires + ";");
  }

  /** A flag segment in front of the first ';' is seen whatever follows it. */
  lemma SegmentFirst(segment: string, rest: string)
    requires ';' !in segment && IsFlagSegment(segment)
    ensures CookieFlagCount(segment + [';'] + rest) > 0
  {
    SplitHead(segment, rest);
    CountWherePositive(Split(segment + [';'] + rest, ';'), IsFlagSegment, 0);
  }

  lemma SplitHead(segment: string, rest: string)
    requires ';' !in segment
    ensures Split(segment + [';'] + rest, ';')[0] == segment
  {
    SplitConcat(segment, rest, ';');
    SplitFree(segment, ';');
  }

  /**
   * The effect of a `setStorage(key, val, expires)` that does not throw: the
   * cookie backend ignores key and val and always writes the flag cookie.
   */
  function Written(backend: Backend, st: Store, key: string, val: string,
                   e: Expires, now: int, gmt: int -> string): (r: Store)
    ensures r.cookie == st.cookie
    ensures backend != SessionStorage ==> r.session == st.session
    ensures backend != LocalStorage ==> r.local == st.local
    ensures backend != Cookie ==> r.cookieWrites == st.cookieWrites
    ensures backend == Cookie ==> r.cookieWrites == st.cookieWrites + [CookieString(e, now, gmt)]
    ensures backend == SessionStorage ==> r.session == st.session[key := val]
    ensures backend == LocalStorage ==> r.local == st.local[key := val]
  {
    match backend
    case Cookie => st.(cookieWrites := st.cookieWrites + [CookieString(e, now, gmt)])
    case SessionStorage => st.(session := st.session[key := val])
    case LocalStorage => st.(local := st.local[key := val])
  }

  /**
   * Writing ("ageVerified", "true") sets the flag for the Web Storage
   * backends; for the cookie backend the written string carries the flag.
   */
  lemma WrittenFlagIsRead(backend: Backend, st: Store, e: Expires, now: int, gmt: int -> string)
    ensures backend != Cookie ==> FlagSet(backend, Written(backend, st, FlagKey, "true", e, now, gmt))
    ensures backend == Cookie ==>
      var w := Written(backend, st, FlagKey, "true", e, now, gmt).cookieWrites;
      CookieFlagCount(w[|w| - 1]) > 0
  {
    if backend == Cookie {
      var w := Written(backend, st, FlagKey, "true", e, now, gmt).cookieWrites;
      assert w[|w| - 1] == CookieString(e, now, gmt);
      CookieStringCarriesFlag(e, now, gmt);
    }
  }
}
