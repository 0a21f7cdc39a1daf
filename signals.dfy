/**
 The `post_save` handler `auto_enroll_on_creation` of nask_filters/signals.py.

 When a user record is saved for the first time, the handler derives an
 organisation slug from the user's email, selects the catalogue courses whose
 organisation equals that slug up to case, and makes one `"audit"`
 enrolment attempt per selected course, swallowing each attempt's failure.

 The host pieces are parameters: the course catalogue is a sequence of
 `Course` values in the order the catalogue query yields them, and
 `CourseEnrollment.enroll` is an oracle `enroll` that says, for each call,
 whether it succeeded (true) or raised (false).
 */
module Signals {
  import opened Wrappers
  import opened PyStrings

  type CourseId = string

  /** A catalogue entry as the handler reads it: `course.id` and `course.org`. */
  datatype Course = Course(id: CourseId, org: string)

  /** The fields of the saved user record that the handler reads. */
  datatype User = User(username: string, email: string)

  /** The arguments of one `CourseEnrollment.enroll(user=..., course_key=...,
      mode=..., check_access=...)` call. */
  datatype EnrollCall = EnrollCall(username: string, courseKey: CourseId, mode: string, checkAccess: bool)

  /** One entry of the attempt log: the call, and whether it returned
      normally (`succeeded`) or raised an exception that the loop caught. */
  datatype Attempt = Attempt(call: EnrollCall, succeeded: bool)

  /** Which `return` of the handler was taken before any enrolment. */
  datatype SkipReason = NotCreated | InvalidEmail | NoMatchingCourses(slug: string)

  /** What the handler decided to do: stop early, or attempt to enrol the
      user in `courses`, the courses selected for `slug`. */
  datatype Decision = Skip(reason: SkipReason) | EnrollAll(slug: string, courses: seq<Course>)
  {
    /** The courses the decision attempts, in order; none when skipping. */
    function Courses(): seq<Course>
    {
      if EnrollAll? then courses else []
    }
  }

  /** The enrolment mode the handler always requests. */
  const AuditMode := "audit"

  /**
   The organisation slug of an email: the text after the first `@` up to the
   next `@`, cut at its first `.`, that is `email.split('@')[1].split('.')[0]`.
   `None` stands for the `except` branch, taken when `split('@')` yields fewer
   than two pieces and indexing it raises; that happens exactly when the email
   holds no `@`, so behind the handler's guard the branch cannot be taken.
   */
  function OrgSlug(email: string): (slug: Option<string>)
    ensures slug.Some? <==> '@' in email
    ensures slug.Some? ==> '@' !in slug.value && '.' !in slug.value
  {
    var pieces := Split(email, '@');
    SplitHasSecondPiece(email, '@');
    if |pieces| < 2 then None
    else
      var domain := pieces[1];
      var slug := Split(domain, '.')[0];
      assert slug == domain[..IndexOf(domain, '.')];
      assert '@' !in domain;
      assert forall k :: 0 <= k < |slug| ==> slug[k] == domain[k];
      Some(slug)
  }

  /**
   A description of the slug by positions, independent of `split`: `at` is
   the position of the first `@`; `slug` is the text that starts right after
   it, holds neither `.` nor `@`, and ends at the end of the email or just
   before a `.` or an `@`.
   */
  predicate IsOrgSlug(email: string, at: nat, slug: string)
  {
    && at < |email| && email[at] == '@' && '@' !in email[..at]
    && at + 1 + |slug| <= |email|
    && email[at + 1..at + 1 + |slug|] == slug
    && '@' !in slug && '.' !in slug
    && (at + 1 + |slug| == |email|
        || email[at + 1 + |slug|] == '.'
        || email[at + 1 + |slug|] == '@')
  }

  /** For a given first `@`, at most one text is its slug. */
  lemma IsOrgSlugUnique(email: string, at: nat, s1: string, s2: string)
    requires IsOrgSlug(email, at, s1) && IsOrgSlug(email, at, s2)
    ensures s1 == s2
  {
  }

  /** Whenever the email holds an `@`, the split-based derivation succeeds
      and its result is the slug described by positions. */
  lemma OrgSlugSound(email: string)
    requires '@' in email
    ensures OrgSlug(email).Some?
    ensures IsOrgSlug(email, IndexOf(email, '@'), OrgSlug(email).value)
  {
    var at := IndexOf(email, '@');
    var rest := email[at + 1..];
    SplitHasSecondPiece(email, '@');
    SplitSecond(email, '@');
    var b := IndexOf(rest, '@');
    var domain := Split(email, '@')[1];
    assert domain == rest[..b];
    var d := IndexOf(domain, '.');
    assert OrgSlug(email) == Some(Split(domain, '.')[0]);
    assert Split(domain, '.')[0] == domain[..d];
    SlugPositions(email, at, b, d);
  }

  /** The position bookkeeping of `OrgSlugSound`: the slug is `rest[..d]`,
      where `rest` follows the first `@`, `b` is the next `@` in `rest` and
      `d` the first `.` before it. */
  lemma SlugPositions(email: string, at: nat, b: nat, d: nat)
    requires at < |email| && email[at] == '@' && '@' !in email[..at]
    requires b == IndexOf(email[at + 1..], '@')
    requires d == IndexOf(email[at + 1..][..b], '.')
    ensures IsOrgSlug(email, at, email[at + 1..][..b][..d])
  {
    var rest := email[at + 1..];
    var domain := rest[..b];
    var slug := domain[..d];
    assert slug == rest[..d];
    assert email[at + 1..at + 1 + d] == slug;
    assert '@' !in slug by {
      assert forall k :: 0 <= k < d ==> slug[k] == domain[k];
    }
    if d < |domain| {
      assert email[at + 1 + d] == rest[d] == domain[d];
    } else if b < |rest| {
      assert email[at + 1 + d] == rest[b];
    }
  }

  /** Conversely, a slug described by positions is the one the split-based
      derivation returns. */
  lemma OrgSlugComplete(email: string, at: nat, slug: string)
    requires IsOrgSlug(email, at, slug)
    ensures OrgSlug(email) == Some(slug)
  {
    assert email[at] in email;
    IndexOfUnique(email, '@', at);
    OrgSlugSound(email);
    IsOrgSlugUnique(email, at, slug, OrgSlug(email).value);
  }

  /** `org__iexact=slug`: organisation equality up to (ASCII) case. */
  predicate SameOrg(org: string, slug: string)
  {
    EqualsIgnoreCase(org, slug)
  }

  /**
   The catalogue query `CourseOverview.objects.filter(org__iexact=slug)`:
   the catalogue courses whose organisation equals the slug up to case, each
   as often as the catalogue holds it, in catalogue order.
   */
  function SelectCourses(catalogue: seq<Course>, slug: string): (selected: seq<Course>)
    ensures |selected| <= |catalogue|
    ensures forall c :: c in selected <==> c in catalogue && SameOrg(c.org, slug)
  {
    if catalogue == [] then []
    else
      var rest := SelectCourses(catalogue[1..], slug);
      assert catalogue == [catalogue[0]] + catalogue[1..];
      if SameOrg(catalogue[0].org, slug) then [catalogue[0]] + rest else rest
  }

  /** Each matching course is selected as many times as the catalogue
      holds it, and no other course is selected at all. */
  lemma {:induction false} SelectCoursesCount(catalogue: seq<Course>, slug: string, c: Course)
    ensures multiset(SelectCourses(catalogue, slug))[c]
         == if SameOrg(c.org, slug) then multiset(catalogue)[c] else 0
  {
    if catalogue != [] {
      SelectCoursesCount(catalogue[1..], slug, c);
      assert catalogue == [catalogue[0]] + catalogue[1..];
      assert multiset(catalogue) == multiset([catalogue[0]]) + multiset(catalogue[1..]);
      var rest := SelectCourses(catalogue[1..], slug);
      if SameOrg(catalogue[0].org, slug) {
        assert multiset([catalogue[0]] + rest) == multiset([catalogue[0]]) + multiset(rest);
      }
    }
  }

  /** The selection keeps catalogue order: selecting from a concatenation is
      concatenating the selections. */
  lemma {:induction false} SelectCoursesAppend(xs: seq<Course>, ys: seq<Course>, slug: string)
    ensures SelectCourses(xs + ys, slug) == SelectCourses(xs, slug) + SelectCourses(ys, slug)
  {
    if xs != [] {
      assert (xs + ys)[0] == xs[0];
      assert (xs + ys)[1..] == xs[1..] + ys;
      SelectCoursesAppend(xs[1..], ys, slug);
      var head := if SameOrg(xs[0].org, slug) then [xs[0]] else [];
      assert SelectCourses(xs + ys, slug) == head + SelectCourses(xs[1..] + ys, slug);
      assert SelectCourses(xs, slug) == head + SelectCourses(xs[1..], slug);
    } else {
      assert xs + ys == ys;
    }
  }

  /**
   Everything the handler decides before its enrolment loop: the `created`
   guard, the email guard (`not email or '@' not in email`), the slug, the
   course query and the "no courses" guard.
   */
  function Decide(created: bool, email: string, catalogue: seq<Course>): (d: Decision)
    ensures d.EnrollAll? <==>
      created && '@' in email &&
      exists c :: c in catalogue && SameOrg(c.org, OrgSlug(email).value)
    ensures d.EnrollAll? ==>
      OrgSlug(email) == Some(d.slug) && d.courses == SelectCourses(catalogue, d.slug)
  {
    if !created then Skip(NotCreated)
    else if email == "" || '@' !in email then Skip(InvalidEmail)
    else
      var slug := OrgSlug(email).value;
      var courses := SelectCourses(catalogue, slug);
      if courses == [] then Skip(NoMatchingCourses(slug))
      else
        assert courses[0] in courses;
        EnrollAll(slug, courses)
  }

  /** The call the loop makes for `course`: audit mode, access check on. */
  function AuditCall(user: User, course: Course): EnrollCall
  {
    EnrollCall(user.username, course.id, AuditMode, true)
  }

  /**
   The attempt log of the enrolment loop over `courses`: exactly one audit
   call per course, in order, each recorded with the oracle's outcome; a
   failed call does not end the loop.
   */
  function AttemptAll(user: User, courses: seq<Course>, enroll: EnrollCall -> bool): (log: seq<Attempt>)
    ensures |log| == |courses|
    ensures forall i :: 0 <= i < |courses| ==>
      log[i].call == AuditCall(user, courses[i]) && log[i].succeeded == enroll(log[i].call)
  {
    if courses == [] then []
    else [Attempt(AuditCall(user, courses[0]), enroll(AuditCall(user, courses[0])))]
         + AttemptAll(user, courses[1..], enroll)
  }

  /** The log of a loop over one more course is the previous log plus that
      course's attempt. */
  lemma {:induction false} AttemptAllSnoc(user: User, courses: seq<Course>, course: Course, enroll: EnrollCall -> bool)
    ensures AttemptAll(user, courses + [course], enroll)
         == AttemptAll(user, courses, enroll) + [Attempt(AuditCall(user, course), enroll(AuditCall(user, course)))]
  {
    var xs := AttemptAll(user, courses + [course], enroll);
    var ys := AttemptAll(user, courses, enroll) + [Attempt(AuditCall(user, course), enroll(AuditCall(user, course)))];
    assert |xs| == |ys|;
    forall i | 0 <= i < |xs| ensures xs[i] == ys[i] {
      if i < |courses| {
        assert (courses + [course])[i] == courses[i];
      }
    }
  }

  /** One more iteration of the loop over `courses` appends the attempt for
      `courses[i]`. */
  lemma AttemptAllStep(user: User, courses: seq<Course>, i: nat, enroll: EnrollCall -> bool)
    requires i < |courses|
    ensures AttemptAll(user, courses[..i + 1], enroll)
         == AttemptAll(user, courses[..i], enroll) + [Attempt(AuditCall(user, courses[i]), enroll(AuditCall(user, courses[i])))]
  {
    assert courses[..i + 1] == courses[..i] + [courses[i]];
    AttemptAllSnoc(user, courses[..i], courses[i], enroll);
  }

  /** The attempt log of the whole handler, as a function of its inputs. */
  function Attempts(created: bool, user: User, catalogue: seq<Course>, enroll: EnrollCall -> bool): seq<Attempt>
  {
    AttemptAll(user, Decide(created, user.email, catalogue).Courses(), enroll)
  }

  /** The course keys of a log, in order. */
  function CourseKeys(log: seq<Attempt>): seq<CourseId>
  {
    seq(|log|, i requires 0 <= i < |log| => log[i].call.courseKey)
  }

  /** The ids of a sequence of courses, in order. */
  function CourseIds(courses: seq<Course>): seq<CourseId>
  {
    seq(|courses|, i requires 0 <= i < |courses| => courses[i].id)
  }

  /**
   With a created user and an email holding `@`, the handler attempts
   exactly the courses the query selects for the email's slug, one attempt
   each, in catalogue order, all in audit mode with the access check on.
   */
  lemma AttemptsAreSelectedCourses(created: bool, user: User, catalogue: seq<Course>, enroll: EnrollCall -> bool)
    requires created && '@' in user.email
    ensures var log := Attempts(created, user, catalogue, enroll);
      && CourseKeys(log) == CourseIds(SelectCourses(catalogue, OrgSlug(user.email).value))
      && forall a :: a in log ==> a.call.mode == AuditMode && a.call.checkAccess && a.call.username == user.username
  {
    var slug := OrgSlug(user.email).value;
    var selected := SelectCourses(catalogue, slug);
    var d := Decide(created, user.email, catalogue);
    if selected == [] {
      assert !d.EnrollAll?;
    } else {
      assert selected[0] in selected;
    }
    assert d.Courses() == selected;
  }

  /** No attempt is ever made for a course whose organisation does not match
      the slug of the email. */
  lemma AttemptsOnlyMatchingCourses(created: bool, user: User, catalogue: seq<Course>, enroll: EnrollCall -> bool, a: Attempt)
    requires a in Attempts(created, user, catalogue, enroll)
    ensures created && '@' in user.email
    ensures exists c :: c in catalogue && c.id == a.call.courseKey && SameOrg(c.org, OrgSlug(user.email).value)
  {
    var d := Decide(created, user.email, catalogue);
    var log := Attempts(created, user, catalogue, enroll);
    var i :| 0 <= i < |log| && log[i] == a;
    assert d.Courses()[i] in d.courses;
  }

  /** If the user record was not newly created, nothing is attempted. */
  lemma NotCreatedNoAttempts(user: User, catalogue: seq<Course>, enroll: EnrollCall -> bool)
    ensures Decide(false, user.email, catalogue) == Skip(NotCreated)
    ensures Attempts(false, user, catalogue, enroll) == []
  {
  }

  /** An empty email, or one without `@`, leads to no course query and no attempt. */
  lemma InvalidEmailNoAttempts(user: User, catalogue: seq<Course>, enroll: EnrollCall -> bool)
    requires '@' !in user.email
    ensures Decide(true, user.email, catalogue) == Skip(InvalidEmail)
    ensures Attempts(true, user, catalogue, enroll) == []
  {
  }

  /** When no catalogue course matches the slug, no attempt is made. */
  lemma NoMatchNoAttempts(created: bool, user: User, catalogue: seq<Course>, enroll: EnrollCall -> bool)
    requires '@' in user.email
    requires forall c :: c in catalogue ==> !SameOrg(c.org, OrgSlug(user.email).value)
    ensures Attempts(created, user, catalogue, enroll) == []
  {
  }

  /** Failures do not change what is attempted: whichever calls fail, the
      same calls are made, in the same order. */
  lemma CallsIndependentOfOutcomes(created: bool, user: User, catalogue: seq<Course>, e1: EnrollCall -> bool, e2: EnrollCall -> bool)
    ensures var l1 := Attempts(created, user, catalogue, e1);
            var l2 := Attempts(created, user, catalogue, e2);
      |l1| == |l2| && forall i :: 0 <= i < |l1| ==> l1[i].call == l2[i].call
  {
  }

  /** The slug is the first label of the domain: `sub` for
      `local@sub.domain.tld`. */
  lemma OrgSlugFirstLabel()
    ensures OrgSlug("local@sub.domain.tld") == Some("sub")
  {
    var email := "local@sub.domain.tld";
    assert email[..5] == "local" && email[5] == '@';
    assert email[6..9] == "sub" && email[9] == '.';
    OrgSlugComplete(email, 5, "sub");
  }

  /** The slug may be empty: `a@.com` has the slug "". */
  lemma OrgSlugEmpty()
    ensures OrgSlug("a@.com") == Some("")
  {
    var email := "a@.com";
    assert email[..1] == "a" && email[1] == '@' && email[2] == '.';
    OrgSlugComplete(email, 1, "");
  }

  /** A second `@` ends the domain: `x@a@b.c` has the slug `a`. */
  lemma OrgSlugSecondAt()
    ensures OrgSlug("x@a@b.c") == Some("a")
  {
    var email := "x@a@b.c";
    assert email[..1] == "x" && email[1] == '@' && email[2..3] == "a" && email[3] == '@';
    OrgSlugComplete(email, 1, "a");
  }

  /** The organisation of `alice@nokia.com` is `nokia`. */
  lemma NokiaSlug()
    ensures OrgSlug("alice@nokia.com") == Some("nokia")
  {
    var email := "alice@nokia.com";
    assert email[..5] == "alice" && email[5] == '@';
    assert email[6..11] == "nokia" && email[11] == '.';
    OrgSlugComplete(email, 5, "nokia");
  }

  /** The query for `nokia` keeps a course of organisation `NOKIA` and
      drops one of organisation `siemens`. */
  lemma NokiaSelection(nokia: Course, siemens: Course)
    requires nokia.org == "NOKIA" && siemens.org == "siemens"
    ensures SelectCourses([nokia, siemens], "nokia") == [nokia]
  {
    assert SameOrg("NOKIA", "nokia") by {
      assert LowerStr("NOKIA") == "nokia";
    }
    assert !SameOrg("siemens", "nokia") by {
      assert LowerStr("siemens")[0] == 's';
    }
    assert [nokia, siemens][1..] == [siemens];
    assert SelectCourses([siemens], "nokia") == [];
  }

  /** A new user `alice@nokia.com`, with one `NOKIA` course and one `siemens`
      course in the catalogue, gets exactly one attempt: an audit enrolment
      in the `NOKIA` course. */
  lemma NokiaScenario(enroll: EnrollCall -> bool, nokia: Course, siemens: Course)
    requires nokia.org == "NOKIA" && siemens.org == "siemens"
    ensures var call := EnrollCall("alice", nokia.id, "audit", true);
      Attempts(true, User("alice", "alice@nokia.com"), [nokia, siemens], enroll)
        == [Attempt(call, enroll(call))]
  {
    NokiaSlug();
    NokiaSelection(nokia, siemens);
    var d := Decide(true, "alice@nokia.com", [nokia, siemens]);
    assert d == EnrollAll("nokia", [nokia]);
  }

  /**
   `auto_enroll_on_creation(sender, instance=user, created)`: the guards,
   the slug, the course query and the fault-tolerant loop. Returns which way
   the handler went and the log of the enrolment calls it made.
   */
  method AutoEnrollOnCreation(created: bool, user: User, catalogue: seq<Course>, enroll: EnrollCall -> bool)
    returns (d: Decision, log: seq<Attempt>)
    ensures d == Decide(created, user.email, catalogue)
    ensures log == AttemptAll(user, d.Courses(), enroll)
    ensures !created ==> d == Skip(NotCreated) && log == []
    ensures created && '@' !in user.email ==> d == Skip(InvalidEmail) && log == []
  {
    if !created {
      return Skip(NotCreated), [];
    }
    if user.email == "" || '@' !in user.email {
      return Skip(InvalidEmail), [];
    }
    var slug := OrgSlug(user.email).value;
    var courses := SelectCourses(catalogue, slug);
    if courses == [] {
      assert Decide(created, user.email, catalogue) == Skip(NoMatchingCourses(slug));
      return Skip(NoMatchingCourses(slug)), [];
    }
    assert Decide(created, user.email, catalogue) == EnrollAll(slug, courses);
    log := [];
    for i := 0 to |courses|
      invariant log == AttemptAll(user, courses[..i], enroll)
    {
      var call := AuditCall(user, courses[i]);
      var ok := enroll(call);
      AttemptAllStep(user, courses, i, enroll);
      log := log + [Attempt(call, ok)];
    }
    assert courses[..|courses|] == courses;
    d := EnrollAll(slug, courses);
  }
}
