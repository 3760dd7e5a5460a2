/** The straight-line rules of the web layer: the restaurant-route guard,
    the address join, form validation for registration, password change and
    reviews, and the paging arithmetic of the table viewer and the reviews
    page. */
module WebRules {
  import opened Text

  // ---------------------------------------------------------------- guard

  /** The check of restaurant_required: restaurant mode is on and the session
      carries a restaurant id that is truthy (present and not 0). */
  predicate SessionAllowed(restaurantMode: bool, rtrId: Option<int>)
    ensures SessionAllowed(restaurantMode, rtrId) ==> restaurantMode && rtrId != None && rtrId != Some(0)
  {
    restaurantMode && rtrId.Some? && rtrId.value != 0
  }

  /** A guarded route only runs for a session in restaurant mode with a
      non-zero restaurant id; any other session is sent to the login. */
  lemma GuardAdmitsOnlyRestaurants(restaurantMode: bool, rtrId: Option<int>)
    ensures SessionAllowed(restaurantMode, rtrId) ==> rtrId.Some? && rtrId.value != 0
    ensures !restaurantMode || rtrId == None || rtrId == Some(0) ==> !SessionAllowed(restaurantMode, rtrId)
  {
  }

  // ---------------------------------------------------------- address join

  /** The address parts kept: absent ones are skipped, the rest stripped, and
      blank ones dropped. */
  function KeptParts(parts: seq<Option<string>>): (kept: seq<string>)
    ensures |kept| <= |parts|
  {
    if |parts| == 0 then []
    else
      var p := parts[|parts| - 1];
      KeptParts(parts[..|parts| - 1])
        + (if p.Some? && Strip(p.value) != "" then [Strip(p.value)] else [])
  }

  /** _addr: the kept parts joined with ", ". */
  method Addr(parts: seq<Option<string>>) returns (addr: string)
    ensures addr == Join(KeptParts(parts), ", ")
  {
    var kept: seq<string> := [];
    var k := 0;
    while k < |parts|
      invariant 0 <= k <= |parts|
      invariant kept == KeptParts(parts[..k])
    {
      assert parts[..k + 1][..k] == parts[..k];
      var p := parts[k];
      if p.Some? {
        var sp := Strip(p.value);
        if sp != "" {
          kept := kept + [sp];
        }
      }
      k := k + 1;
    }
    assert parts[..k] == parts;
    addr := Join(kept, ", ");
  }

  lemma StripIdempotent(s: string)
    ensures Strip(Strip(s)) == Strip(s)
  {
    StripShape(s);
    if |Strip(s)| > 0 {
      StripNoSpaceEnds(Strip(s));
    }
  }

  /** Every kept part is non-blank and already stripped, and a present part
      that is not blank is always kept. */
  lemma {:induction false} KeptPartsClean(parts: seq<Option<string>>)
    ensures forall i :: 0 <= i < |KeptParts(parts)| ==>
              KeptParts(parts)[i] != "" && Strip(KeptParts(parts)[i]) == KeptParts(parts)[i]
    ensures forall i :: 0 <= i < |parts| && parts[i].Some? && Strip(parts[i].value) != "" ==>
              Strip(parts[i].value) in KeptParts(parts)
  {
    if |parts| > 0 {
      var front := parts[..|parts| - 1];
      KeptPartsClean(front);
      var p := parts[|parts| - 1];
      if p.Some? {
        StripIdempotent(p.value);
      }
      forall i | 0 <= i < |parts| - 1 && parts[i].Some? && Strip(parts[i].value) != ""
        ensures Strip(parts[i].value) in KeptParts(parts)
      {
        assert front[i] == parts[i];
      }
    }
  }

  /** With no usable part the address is empty; with some it never begins
      with the separator. */
  lemma AddrEmpty(parts: seq<Option<string>>)
    ensures Join(KeptParts(parts), ", ") == "" <==> KeptParts(parts) == []
  {
    var kept := KeptParts(parts);
    KeptPartsClean(parts);
    if kept != [] {
      JoinNonEmpty(kept, ", ");
    }
  }

  lemma JoinNonEmpty(parts: seq<string>, sep: string)
    requires |parts| > 0
    ensures |Join(parts, sep)| >= |parts[0]| && Join(parts, sep)[..|parts[0]|] == parts[0]
  {
    if |parts| > 1 {
      assert Join(parts, sep) == parts[0] + (sep + Join(parts[1..], sep));
    }
  }

  // ---------------------------------------------------------- registration

  /** `^[^@]+@[^@]+\.[^@]+$` read as a condition: exactly one '@', not first,
      and a '.' after it with at least one character on each side. */
  predicate EmailPattern(e: string)
  {
    exists i, j :: 0 < i && i + 2 <= j && j + 2 <= |e| && e[i] == '@' && e[j] == '.'
                   && forall k :: 0 <= k < |e| && k != i ==> e[k] != '@'
  }

  function FirstIndex(s: string, c: char): (r: nat)
    requires c in s
    ensures r < |s| && s[r] == c && c !in s[..r]
  {
    if s[0] == c then 0
    else
      var r := 1 + FirstIndex(s[1..], c);
      assert s[..r] == [s[0]] + s[1..][..r - 1];
      r
  }

  /** The email check as a scan: find the '@', then look for it again and
      for a '.' inside what follows. */
  predicate EmailOk(e: string)
    ensures EmailOk(e) ==> |e| >= 5
  {
    '@' in e &&
    var i := FirstIndex(e, '@');
    0 < i && '@' !in e[i + 1..] && i + 4 <= |e| && '.' in e[i + 2..|e| - 1]
  }

  lemma EmailOkIsPattern(e: string)
    ensures EmailOk(e) <==> EmailPattern(e)
  {
    if EmailOk(e) {
      var i := FirstIndex(e, '@');
      var t := e[i + 2..|e| - 1];
      var j' :| 0 <= j' < |t| && t[j'] == '.';
      var j := i + 2 + j';
      assert e[j] == '.';
      forall k | 0 <= k < |e| && k != i ensures e[k] != '@' {
        if k < i {
          assert e[k] == e[..i][k];
        } else {
          assert e[k] == e[i + 1..][k - i - 1];
        }
      }
    }
    if EmailPattern(e) {
      var i, j :| 0 < i && i + 2 <= j && j + 2 <= |e| && e[i] == '@' && e[j] == '.'
                  && forall k :: 0 <= k < |e| && k != i ==> e[k] != '@';
      assert '@' in e;
      var f := FirstIndex(e, '@');
      assert f == i;
      assert '@' !in e[i + 1..] by {
        assert forall k :: i + 1 <= k < |e| ==> e[k] != '@';
      }
      assert e[i + 2..|e| - 1][j - i - 2] == '.';
    }
  }

  /** str.lower() on ASCII letters. */
  function Lower(s: string): (r: string)
    ensures |r| == |s|
    ensures forall i :: 0 <= i < |s| ==> (s[i] == '@' <==> r[i] == '@') && (s[i] == '.' <==> r[i] == '.')
  {
    if |s| == 0 then []
    else [if 'A' <= s[0] <= 'Z' then (s[0] as int + 32) as char else s[0]] + Lower(s[1..])
  }

  /** re.sub(r"\D+", "", phone): the digits of the phone number, in order. */
  function DigitsOnly(s: string): (r: string)
    ensures AllDigits(r) && |r| <= |s|
  {
    if |s| == 0 then []
    else (if IsDigit(s[0]) then [s[0]] else []) + DigitsOnly(s[1..])
  }

  lemma {:induction false} DigitsOnlyOfDigits(s: string)
    requires AllDigits(s)
    ensures DigitsOnly(s) == s
  {
    if |s| > 0 {
      DigitsOnlyOfDigits(s[1..]);
    }
  }

  /** Separators in a phone number are ignored. */
  lemma {:induction false} DigitsOnlySkips(a: string, c: char, b: string)
    requires !IsDigit(c)
    ensures DigitsOnly(a + [c] + b) == DigitsOnly(a + b)
  {
    if |a| == 0 {
      assert a + [c] + b == [c] + b && ([c] + b)[1..] == b && a + b == b;
    } else {
      assert (a + [c] + b)[1..] == a[1..] + [c] + b;
      assert (a + b)[1..] == a[1..] + b;
      DigitsOnlySkips(a[1..], c, b);
    }
  }

  datatype RegisterForm = RegisterForm(fname: Option<string>, lname: Option<string>,
                                       email: Option<string>, phone: Option<string>,
                                       password: Option<string>, confirm: Option<string>)

  /** What registration stores for a new user (the password before hashing). */
  datatype NewUser = NewUser(fname: string, lname: string, email: string, phone: string, password: string)

  datatype Checked<T> = Accepted(value: T) | Refused(message: string)

  /** A missing form field reads as "". */
  function Field(f: Option<string>): string
  {
    if f.Some? then f.value else ""
  }

  /** The checks of register() in their order, on the fields as the route
      holds them, the first failing one giving the page's error;
      `registered` is the set of emails already in the User table. */
  function Validate(fname: string, lname: string, email: string, phone: string,
                    password: string, confirm: string, registered: set<string>): (c: Checked<NewUser>)
    ensures c.Accepted? ==> EmailOk(c.value.email) && c.value.email !in registered
    ensures c.Accepted? ==> |c.value.password| >= 6 && c.value.password == confirm
    ensures c.Refused? ==> c.message != ""
  {
    if fname == "" || lname == "" then Refused("First and last name are required")
    else if email == "" || !EmailOk(email) then Refused("Please enter a valid email address")
    else if password != confirm then Refused("Passwords do not match")
    else if |password| < 6 then Refused("Password must be at least 6 characters")
    else if |DigitsOnly(phone)| < 7 then Refused("Please enter a valid phone number")
    else if email in registered then Refused("Email already registered")
    else Accepted(NewUser(fname, lname, email, phone, password))
  }

  /** register(): names, email and phone are stripped, the email also
      lower-cased, the password taken as typed; then the checks run. */
  function Register(form: RegisterForm, registered: set<string>): (c: Checked<NewUser>)
    ensures c.Accepted? ==> c.value.email !in registered && |c.value.password| >= 6
    ensures c.Accepted? ==> c.value.password == Field(form.password) && c.value.email == Lower(Strip(Field(form.email)))
  {
    Validate(Strip(Field(form.fname)), Strip(Field(form.lname)), Lower(Strip(Field(form.email))),
             Strip(Field(form.phone)), Field(form.password), Field(form.confirm), registered)
  }

  /** The checks accept exactly when every condition holds, and then store
      the fields unchanged. */
  lemma ValidateAccepts(fname: string, lname: string, email: string, phone: string,
                        password: string, confirm: string, registered: set<string>)
    ensures Validate(fname, lname, email, phone, password, confirm, registered).Accepted? <==>
      && fname != "" && lname != "" && EmailPattern(email)
      && password == confirm && |password| >= 6 && |DigitsOnly(phone)| >= 7
      && email !in registered
    ensures Validate(fname, lname, email, phone, password, confirm, registered).Accepted? ==>
      Validate(fname, lname, email, phone, password, confirm, registered).value
        == NewUser(fname, lname, email, phone, password)
  {
    EmailOkIsPattern(email);
  }

  /** Registration succeeds exactly when every check holds on the stripped
      fields, and what it stores has non-blank stripped names, a fresh email
      of the required shape, a password of at least 6 characters that was
      typed twice, and a phone number with at least 7 digits. */
  lemma RegisterAccepts(form: RegisterForm, registered: set<string>)
    ensures Register(form, registered).Accepted? <==>
      && Strip(Field(form.fname)) != "" && Strip(Field(form.lname)) != ""
      && EmailPattern(Lower(Strip(Field(form.email))))
      && Field(form.password) == Field(form.confirm) && |Field(form.password)| >= 6
      && |DigitsOnly(Strip(Field(form.phone)))| >= 7
      && Lower(Strip(Field(form.email))) !in registered
    ensures Register(form, registered).Accepted? ==>
      var u := Register(form, registered).value;
      && u.email !in registered && EmailPattern(u.email) && |u.password| >= 6
      && Strip(u.fname) == u.fname && u.fname != "" && |DigitsOnly(u.phone)| >= 7
  {
    ValidateAccepts(Strip(Field(form.fname)), Strip(Field(form.lname)), Lower(Strip(Field(form.email))),
                    Strip(Field(form.phone)), Field(form.password), Field(form.confirm), registered);
    StripIdempotent(Field(form.fname));
  }

  // ------------------------------------------------------- password change

  /** The outcomes of change_password: an error code for the profile page,
      a logout when the user row is gone, or the new password to store. */
  datatype PasswordOutcome = PwError(code: string) | Logout | Updated(newPassword: string)

  /** The checks of change_password in their order. All three fields are
      stripped; `stored` is whether the current password matches the stored
      hash, None when the user row no longer exists. */
  function ChangePassword(current: Option<string>, newPw: Option<string>, confirm: Option<string>,
                          stored: Option<bool>): (o: PasswordOutcome)
    ensures o.Updated? ==> stored == Some(true) && |o.newPassword| >= 6
    ensures o.Logout? ==> stored.None?
  {
    var cur := Strip(Field(current));
    var np := Strip(Field(newPw));
    var cf := Strip(Field(confirm));
    if cur == "" then PwError("missing_current")
    else if |np| < 6 then PwError("too_short")
    else if np != cf then PwError("mismatch")
    else if np == cur then PwError("same_as_current")
    else if stored.None? then Logout
    else if !stored.value then PwError("incorrect_current")
    else Updated(np)
  }

  /** A password is only replaced by a different one of at least 6
      characters, typed twice, after the current one was given and matched;
      and a too-short new password is reported before a mismatch. */
  lemma ChangePasswordRules(current: Option<string>, newPw: Option<string>, confirm: Option<string>,
                            stored: Option<bool>)
    ensures ChangePassword(current, newPw, confirm, stored).Updated? <==>
      && Strip(Field(current)) != "" && |Strip(Field(newPw))| >= 6
      && Strip(Field(newPw)) == Strip(Field(confirm)) && Strip(Field(newPw)) != Strip(Field(current))
      && stored == Some(true)
    ensures ChangePassword(current, newPw, confirm, stored).Updated? ==>
      var p := ChangePassword(current, newPw, confirm, stored).newPassword;
      |p| >= 6 && p != Strip(Field(current)) && Strip(p) == p
    ensures Strip(Field(current)) != "" && |Strip(Field(newPw))| < 6 ==>
      ChangePassword(current, newPw, confirm, stored) == PwError("too_short")
  {
    StripIdempotent(Field(newPw));
  }

  // ---------------------------------------------------------------- review

  /** The rating check of the review form. */
  function Rating(raw: Option<string>): (c: Checked<int>)
    ensures c.Accepted? ==> 1 <= c.value <= 5
    ensures raw == None ==> c == Refused("Please select a rating")
  {
    if raw == None || raw == Some("") then Refused("Please select a rating")
    else
      var n := PyInt(raw.value);
      if n.None? || n.value < 1 || n.value > 5 then Refused("Invalid rating value")
      else Accepted(n.value)
  }

  /** A stored rating is always 1..5 and is what int() reads from the field;
      each of 1..5 written in decimal is accepted as itself. */
  lemma RatingRange(raw: Option<string>, n: int)
    ensures Rating(raw).Accepted? ==>
              1 <= Rating(raw).value <= 5 && raw.Some? && PyInt(raw.value) == Some(Rating(raw).value)
    ensures 1 <= n <= 5 ==> Rating(Some(IntToString(n))) == Accepted(n)
  {
    if 1 <= n <= 5 {
      PyIntOfIntToString(n);
    }
  }

  /** A rating field holding a character that is neither whitespace nor part
      of an integer literal is refused. */
  lemma RatingRejectsForeign(raw: string, i: nat)
    requires raw != "" && i < |raw| && !IsSpace(raw[i]) && !IsIntChar(raw[i])
    ensures Rating(Some(raw)) == Refused("Invalid rating value")
  {
    PyIntRejectsForeignChar(raw, i);
  }

  // ---------------------------------------------------------------- paging

  const PerPage := 10

  /** math.ceil(total / 10) for a count of rows. */
  function PageCount(total: nat): (p: nat)
    ensures total <= p * 10 < total + 10
  {
    (total + 9) / 10
  }

  lemma PageCountBounds(total: nat)
    ensures total > 0 ==> PageCount(total) >= 1
    ensures (PageCount(total) - 1) * 10 < total || total == 0
    ensures total <= PageCount(total) * 10
  {
  }

  datatype PageView = PageView(page: nat, pages: nat, offset: nat, start: nat, end: nat)

  /** db_view: the page argument read with int(), 1 when absent or not an
      integer, clamped to 1..pages where pages = max(ceil(total/10), 1); the
      rows shown are offset .. end-1, reported as start .. end (start is 0
      for an empty table). */
  function DbViewPage(pageArg: Option<string>, total: nat): (v: PageView)
    ensures 1 <= v.page <= v.pages && v.start <= v.end <= total
  {
    var requested := if pageArg.None? then 1 else (var n := PyInt(pageArg.value); if n.None? then 1 else n.value);
    var page1 := if requested < 1 then 1 else requested;
    var pages := if PageCount(total) < 1 then 1 else PageCount(total);
    var page := if page1 < pages then page1 else pages;
    var offset := (page - 1) * PerPage;
    var start := if total == 0 then 0 else offset + 1;
    var end := if offset + PerPage < total then offset + PerPage else total;
    PageView(page, pages, offset, start, end)
  }

  /** The page shown always exists: 1 <= page <= pages, start <= end <=
      total, at most 10 rows, and a non-empty table never shows an empty
      page, whatever page was asked for. */
  lemma DbViewPageBounds(pageArg: Option<string>, total: nat)
    ensures var v := DbViewPage(pageArg, total);
      && 1 <= v.page <= v.pages
      && v.start <= v.end <= total
      && v.end - v.offset <= PerPage
      && (total == 0 <==> v.start == 0)
      && (total > 0 ==> v.start == v.offset + 1 && v.offset < v.end)
  {
    PageCountBounds(total);
  }

  /** A page number within range is kept as asked. */
  lemma DbViewKeepsValidPage(p: nat, total: nat)
    requires 1 <= p <= PageCount(total)
    ensures DbViewPage(Some(IntToString(p)), total).page == p
    ensures DbViewPage(Some(IntToString(p)), total).offset == (p - 1) * 10
  {
    PyIntOfIntToString(p);
  }

  /** restaurant_reviews: the page argument read with int() (a value that is
      not an integer makes the request fail, None here) and raised to at
      least 1; it is not clamped to the number of pages. */
  function ReviewsPage(pageArg: Option<string>): (p: Option<nat>)
    ensures p.Some? ==> p.value >= 1
    ensures pageArg.None? ==> p == Some(1)
  {
    if pageArg.None? then Some(1)
    else
      var n := PyInt(pageArg.value);
      if n.None? then None else Some(if n.value < 1 then 1 else n.value)
  }

  /** total_pages of the reviews page: ceil(total/10), or 1 when there are no
      reviews. */
  function ReviewPages(total: nat): (n: nat)
    ensures n >= 1
    ensures total > 0 ==> total <= n * 10
  {
    if total > 0 then PageCount(total) else 1
  }

  /** The reviews page's numbers: a page of at least 1, an offset of
      (page-1)*10, and a page count of at least 1 that just covers the
      reviews. Pages past the last stay empty rather than being clamped. */
  lemma ReviewsPaging(pageArg: Option<string>, total: nat)
    ensures ReviewsPage(pageArg).Some? ==> ReviewsPage(pageArg).value >= 1
    ensures ReviewPages(total) >= 1
    ensures total > 0 ==> (ReviewPages(total) - 1) * 10 < total <= ReviewPages(total) * 10
    ensures ReviewsPage(pageArg).Some? && ReviewsPage(pageArg).value > ReviewPages(total) ==>
              (ReviewsPage(pageArg).value - 1) * 10 >= total
  {
    PageCountBounds(total);
  }

  /** The star filter of the reviews page: applied only for an integer 1..5,
      otherwise (including the default "all") every review is listed. */
  function RatingFilter(filterArg: Option<string>): (f: Option<int>)
    ensures f.Some? ==> 1 <= f.value <= 5
  {
    var arg := if filterArg.None? then "all" else filterArg.value;
    if arg == "all" then None
    else
      var n := PyInt(arg);
      if n.Some? && 1 <= n.value <= 5 then Some(n.value) else None
  }
}
