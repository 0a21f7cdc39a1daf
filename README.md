# nask_filters: organisation auto-enrolment and username rewriting, in Dafny

This project models the two pieces of logic in the `nask_filters` hooks for an
Open edX platform and proves what they promise.

* **Auto-enrolment on user creation** (`auto_enroll_on_creation`,
  `nask_filters/signals.py`). When a user record is saved for the first time,
  the handler checks the email, derives an organisation slug from it, asks the
  course catalogue for the courses of that organisation (case-insensitively)
  and tries one `"audit"` enrolment per course. A failing enrolment is caught
  and the loop goes on. Modelled in `signals.dfy` (module `Signals`) on top of
  `pystrings.dfy` (module `PyStrings`: Python's `str.split`, `str.join`,
  `str.find` and ASCII lower-casing over `seq<char>`).
* **Username rewriting** (`ModifyUsername.run_filter`,
  `nask_filters/pipeline.py`). The filter step appends `-custom` to the
  `username` entry of the registration form data, in place, and returns the
  same dictionary under the key `form_data`. Modelled in `pipeline.dfy`
  (module `Pipeline`) as a class `FormData` holding the dictionary as a map
  field, and a class `ModifyUsername` whose `RunFilter` may change only that
  field.

The host is a parameter, not code. The catalogue is a `seq<Course>` in the
order the query returns it. `CourseEnrollment.enroll` is an oracle
`enroll: EnrollCall -> bool`. For each call it says whether the call returned
(`true`) or raised (`false`). The handler is a method with a loop that builds
the log of the calls it made and their outcomes. It also returns a `Decision`
that records which `return` it took. The specification functions `Decide`
(guards, slug, query) and `AttemptAll` (the loop) describe that result.

Where the system's design notes and the code disagree, the model
follows the code:

* The creation handler does not look up existing enrolments
  (`nask_filters/signals.py:43`). So the model promises one attempt per
  matching course, not idempotence.
* The creation handler does not check whether the user is active.
* The creation handler compares organisations case-insensitively
  (`org__iexact`, line 37). It does not compare them case-sensitively.

## Model

| member | source | states |
|---|---|---|
| `PyStrings.Split` | nask_filters/signals.py:30-31 | `str.split` with a one-character separator: at least one piece; the first piece is the text before the first separator; a second piece exists exactly when the separator has a first position; no piece contains the separator |
| `PyStrings.SplitHasSecondPiece` | nask_filters/signals.py:25-30 | `split('@')` has an element at index 1 exactly when the text contains `@` |
| `PyStrings.SplitSecond` | nask_filters/signals.py:30 | the piece at index 1 is the text between the first separator and the next one (or the end) |
| `PyStrings.JoinSplit` | nask_filters/signals.py:30-31 | joining the pieces of a split with the same separator gives back the original text |
| `PyStrings.SplitJoin` | nask_filters/signals.py:30-31 | splitting a join of separator-free pieces gives back the pieces |
| `PyStrings.IndexOf` | nask_filters/signals.py:30-31 | the position of the first occurrence, or the length when there is none; nothing before it is the character |
| `PyStrings.EqualsIgnoreCasePointwise` | nask_filters/signals.py:37 | the `iexact` comparison holds exactly when the lengths agree and the letters agree once lower-cased |
| `Signals.OrgSlug` | nask_filters/signals.py:28-34 | slug derivation succeeds exactly when the email holds `@`, so the `except` branch is unreachable behind the guard; the slug contains neither `.` nor `@` |
| `Signals.OrgSlugSound` | nask_filters/signals.py:29-31 | for an email with `@`, the derived slug is the text right after the first `@` that stops at the end, at a `.` or at a second `@` |
| `Signals.SlugPositions` | nask_filters/signals.py:30-31 | the position description holds for the prefix, up to the first `.`, of the segment between the first `@` and the next one |
| `Signals.OrgSlugComplete` | nask_filters/signals.py:30-31 | conversely, any text that meets the position description is the slug the split-based code derives |
| `Signals.IsOrgSlugUnique` | nask_filters/signals.py:30-31 | for a given first `@`, the position description determines the slug |
| `Signals.OrgSlugFirstLabel` | nask_filters/signals.py:30-31 | `local@sub.domain.tld` has slug `sub` |
| `Signals.OrgSlugEmpty` | nask_filters/signals.py:30-31 | `a@.com` has the empty slug |
| `Signals.OrgSlugSecondAt` | nask_filters/signals.py:30-31 | in `x@a@b.c` the second `@` ends the domain, so the slug is `a` |
| `Signals.SelectCourses` | nask_filters/signals.py:37 | the selection holds exactly the catalogue courses whose org equals the slug up to case, and is no longer than the catalogue |
| `Signals.SelectCoursesCount` | nask_filters/signals.py:37 | a matching course is selected as many times as the catalogue holds it; a non-matching course is never selected |
| `Signals.SelectCoursesAppend` | nask_filters/signals.py:37 | the selection keeps catalogue order: selecting from a concatenation concatenates the selections |
| `Signals.Decide` | nask_filters/signals.py:18-41 | the handler reaches the enrolment loop exactly when the user is new, the email holds `@` and some catalogue course matches the slug; the courses it then enrols are the query's result for that slug |
| `Signals.AttemptAll` | nask_filters/signals.py:44-54 | the loop makes exactly one call per course, in order, with the user, that course's id, mode `"audit"` and the access check on; each call is logged with its own outcome, so a failure does not end the loop |
| `Signals.AttemptAllSnoc` | nask_filters/signals.py:44-54 | one more loop iteration appends exactly that course's attempt to the log |
| `Signals.AttemptAllStep` | nask_filters/signals.py:44-54 | the log after `i + 1` iterations is the log after `i` iterations plus the attempt for the `i`-th course |
| `Signals.AttemptsAreSelectedCourses` | nask_filters/signals.py:37-52 | for a new user with `@` in the email, the attempted course keys are exactly the ids of the selected courses, in order; every call uses `"audit"`, the access check and the user's name |
| `Signals.AttemptsOnlyMatchingCourses` | nask_filters/signals.py:37-52 | every attempt is for a catalogue course whose org matches the slug, and attempts happen only for a new user whose email holds `@` |
| `Signals.NotCreatedNoAttempts` | nask_filters/signals.py:18-19 | a user record that is not new: the handler stops at once and attempts nothing |
| `Signals.InvalidEmailNoAttempts` | nask_filters/signals.py:25-26 | an email that is empty or has no `@`: no query, no attempt |
| `Signals.NoMatchNoAttempts` | nask_filters/signals.py:39-41 | if no catalogue course matches the slug, no attempt is made |
| `Signals.CallsIndependentOfOutcomes` | nask_filters/signals.py:45-54 | whichever enrolments fail, the same calls are made in the same order |
| `Signals.NokiaSlug` | nask_filters/signals.py:30-31 | `alice@nokia.com` has slug `nokia` |
| `Signals.NokiaSelection` | nask_filters/signals.py:37 | the query for `nokia` keeps a `NOKIA` course and drops a `siemens` course |
| `Signals.NokiaScenario` | nask_filters/signals.py:18-52 | a new user `alice@nokia.com` with a `NOKIA` and a `siemens` course gets one audit attempt, for the `NOKIA` course |
| `Signals.AutoEnrollOnCreation` | nask_filters/signals.py:13-54 | the handler's decision is `Decide` of its inputs and its log is `AttemptAll` over the decided courses; not new, or no `@`: it stops with no attempt |
| `Pipeline.WithCustomUsername` | nask_filters/pipeline.py:12-16 | the new `username` is the rendering of the old value followed by `-custom`, 7 characters longer; `username` is the only key that may be added; every other key keeps its value |
| `Pipeline.TextUsername` | nask_filters/pipeline.py:12-16 | a text username becomes that text followed by `-custom` |
| `Pipeline.MissingUsername` | nask_filters/pipeline.py:12-16 | without a `username` entry, `get` yields `None` and the stored value is `None-custom` |
| `Pipeline.NotIdempotent` | nask_filters/pipeline.py:16 | applying the step twice appends `-custom-custom`, which differs from applying it once |
| `Pipeline.ModifyUsername.RunFilter` | nask_filters/pipeline.py:11-18 | the form data object is updated in place to `WithCustomUsername` of its old contents; the result has the single key `form_data`, whose value is that same object |

## Left out

- Logging (`nask_filters/signals.py:22, 33, 40, 46, 54`; `nask_filters/pipeline.py:13`): side-channel output with no effect on behaviour.
- Signal registration (`@receiver(post_save, sender=User)`) and `get_user_model()`: framework wiring. The handler is a method taking `created`, the user's name and email, and the catalogue.
- `nask_filters/apps.py`: an app-ready hook that only imports the signals module and prints to stderr.
- The database side of the course query: the model takes the catalogue as a sequence in query order. `iexact` is modelled as ASCII lower-case equality, so non-ASCII case folding by the database collation is not captured.
- A failure of the catalogue query itself is not modelled. The query at `nask_filters/signals.py:37` is outside any `try`, so such an exception would reach the caller; the model takes the catalogue as given.
- `CourseEnrollment.enroll` itself: the enrolment rows it writes and its access check are host code. The oracle `enroll` stands for its outcome. `AttemptAll` assumes the oracle answers each call independently of earlier calls.
- The user's email is modelled as a string. `not user.email` is the empty-string test, and a `None` email is not modelled.
- Form values other than `None` and text are not modelled. Other value types (numbers, lists) would render through their own `__str__`, which is not captured.
- The extra positional and keyword arguments of `run_filter` are not used by the step and are not modelled.
- The login-time enrolment step and the dashboard stamping step are not part of this model, because their source files are not among the modelled files.
