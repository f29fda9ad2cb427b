# Registration validation and dashboard view selection, in Dafny

This project models the two pieces of logic in a small single-page application
for "study sets":

- **The registration form** (`register-form.tsx`). The component keeps four
  pieces of state: the e-mail draft, the password draft, and one error message
  per field. Each field has an effect that checks it against a regular
  expression whenever that field changes. The effect stores either `""` or a
  fixed message. The submit handler only logs the e-mail. An error is shown
  when its message is non-empty.
- **The dashboard page** (`dashboard.lazy.tsx`). From the list query's
  loading flag and data, the page shows one of three things: the loading line,
  the text "No study sets found", or a grid with one card per study set whose
  title is truthy. The page header keeps one flag, whether the
  "create study set" dialog is open.

Files and modules:

- `email_pattern.dfy`, module `EmailPattern`: the e-mail expression
  `^[\w-\.]+@([\w-]+\.)+[\w-]{2,4}$`, written out piece by piece as
  `MatchesEmail`. Without the `u` flag, `\w` is ASCII `[A-Za-z0-9_]`. The module
  also defines the accepted set in plain terms as `ValidEmail`, using
  `IndexOf`, `Split` (JavaScript's `split` on one character) and its inverse
  `Join`. `EmailAcceptSet` proves that the two are the same set. The email
  pattern is its own ad hoc rule, not RFC 5322, and the model follows the
  pattern.
- `password_pattern.dfy`, module `PasswordPattern`: the password expression
  `^(?=.*[A-Za-z])(?=.*\d)(?=.*[@$!%*#?&])[A-Za-z\d@$!%*#?&]{8,}$`. The three
  lookaheads are modelled as written, where `.` does not match a line
  terminator. `PasswordAcceptSet` proves that the expression accepts exactly
  the strings of at least eight characters from `[A-Za-z0-9@$!%*#?&]` that
  contain a letter, a digit and a symbol.
- `register_form.dfy`, module `Registration`: the two error functions and the
  class `RegisterForm`, which holds the component's four state fields.
  - The constructor gives the values of the first render (all four empty).
  - `Mount` runs both effects once.
  - `SetEmail` and `SetPassword` are the change handlers together with the
    effect they trigger.
  - `HandleSubmit` is the submit handler.
- `study_sets_api.dfy`, module `StudySetsApi`: the `StudySet` record. It also
  holds the one local decision of the list query's fetch function: a failed
  request is caught, logged, and turned into `undefined` data.
- `dashboard.dfy`, module `Dashboard`: `Render`, the title filter
  `Card`/`Cards`, the lemmas about them, and the class `DashboardHeader`.

Behaviour of the code that the model keeps:

- Submitting does not check validity. No state blocks submission while a
  field is invalid: `HandleSubmit` changes no field and reads neither error.
- Each error is recomputed only when its own field changes. Setting a field
  to its current value leaves its error alone, because React skips the render
  and the effect's dependency is unchanged. Before `Mount`, all four fields
  are empty, so the errors do not yet agree with the drafts (`Consistent()`
  is false). After `Mount`, both messages are set.
- Fetch errors are not shown on the page. When the first load fails, the
  fetch function catches the error and yields no data. No data is not a list
  of length zero, so the page shows an empty grid, not the empty-state text
  (`RenderAfterFailedFetch`).

## Model

| member | source | states |
|---|---|---|
| `EmailPattern.MatchesEmail` | demo/src/features/auth/components/register-form.tsx:12 | the expression `^[\w-\.]+@([\w-]+\.)+[\w-]{2,4}$` transcribed piece by piece (a split point per concatenation, one unfolding per `+`); a matching string contains an `@` |
| `EmailPattern.ValidEmail` | demo/src/features/auth/components/register-form.tsx:12 | the accept set in plain terms: exactly one `@`, a non-empty run of `[A-Za-z0-9_.-]` before it, and after it at least two `.`-separated non-empty segments of `[A-Za-z0-9_-]`, the last of length 2 to 4; such a string contains an `@` |
| `EmailPattern.EmailAcceptSet` | demo/src/features/auth/components/register-form.tsx:12 | the e-mail expression accepts a string iff it has exactly one `@`, the part before it is a non-empty run of `[A-Za-z0-9_.-]`, and the part after it splits on `.` into at least two non-empty segments of `[A-Za-z0-9_-]`, the last of length 2 to 4 |
| `EmailPattern.MatchIsValid` | demo/src/features/auth/components/register-form.tsx:12 | every string the e-mail expression matches lies in the accept set described above |
| `EmailPattern.ValidMatches` | demo/src/features/auth/components/register-form.tsx:12 | every string of the accept set is matched by the e-mail expression, split at its `@` |
| `EmailPattern.DomainIffSegments` | demo/src/features/auth/components/register-form.tsx:12 | the domain part `([\w-]+\.)+[\w-]{2,4}` accepts exactly the strings whose `.`-segments are at least two non-empty labels, with a last label of 2 to 4 characters |
| `EmailPattern.DomainChars` | demo/src/features/auth/components/register-form.tsx:12 | whatever the domain part accepts consists only of `[A-Za-z0-9_-]` and `.`, so it never holds a second `@` |
| `EmailPattern.MatchSplitsAtOnlyAt` | demo/src/features/auth/components/register-form.tsx:12 | in a match, the `@` the expression splits at is the first and only `@` of the string |
| `EmailPattern.EmptyEmailRejected` | demo/src/features/auth/components/register-form.tsx:12 | the empty string, the form's initial e-mail, does not match |
| `EmailPattern.ShortAddressAccepted` | demo/src/features/auth/components/register-form.tsx:12 | `a@b.com` matches |
| `PasswordPattern.MatchesPassword` | demo/src/features/auth/components/register-form.tsx:22 | the expression `^(?=.*[A-Za-z])(?=.*\d)(?=.*[@$!%*#?&])[A-Za-z\d@$!%*#?&]{8,}$` transcribed: three lookaheads whose `.` stops at a line terminator, then the body to the end of input; a matching string has at least eight characters |
| `PasswordPattern.ValidPassword` | demo/src/features/auth/components/register-form.tsx:22 | the accept set in plain terms: at least eight characters, all in `[A-Za-z0-9@$!%*#?&]`, with an ASCII letter, a digit and one of `@$!%*#?&` |
| `PasswordPattern.PasswordAcceptSet` | demo/src/features/auth/components/register-form.tsx:21-23 | the password expression accepts a string iff it has length at least 8, every character is in `[A-Za-z0-9@$!%*#?&]`, and it contains an ASCII letter, a digit and one of `@$!%*#?&` |
| `PasswordPattern.LookaheadInBody` | demo/src/features/auth/components/register-form.tsx:22 | once the body `[A-Za-z\d@$!%*#?&]{8,}$` has matched, each lookahead `(?=.*X)` holds iff some character is an `X` |
| `PasswordPattern.LookaheadStopsAtLineBreak` | demo/src/features/auth/components/register-form.tsx:22 | a lookahead on its own does not look past a line terminator: it fails on `"\n1"` for a digit, although the string contains one |
| `PasswordPattern.ForeignCharRejected` | demo/src/features/auth/components/register-form.tsx:22 | a password containing a character outside `[A-Za-z0-9@$!%*#?&]` is rejected, whatever else it contains |
| `PasswordPattern.EmptyPasswordRejected` | demo/src/features/auth/components/register-form.tsx:22 | the empty string, the form's initial password, does not match |
| `PasswordPattern.ExamplePasswordAccepted` | demo/src/features/auth/components/register-form.tsx:22 | `Passw0rd!` matches |
| `PasswordPattern.ExamplePasswordWithSpaceRejected` | demo/src/features/auth/components/register-form.tsx:22 | `Pass w0rd!` has the length, a letter, a digit and a symbol, but does not match because of the space |
| `Registration.EmailError` | demo/src/features/auth/components/register-form.tsx:11-17 | the e-mail effect's message is `""` iff the e-mail is in the accepted set, and otherwise exactly "Please enter a valid email address." |
| `Registration.PasswordError` | demo/src/features/auth/components/register-form.tsx:19-29 | the password effect's message is `""` iff the password is in the accepted set, and otherwise exactly "Please enter a valid password." |
| `Registration.InitialDraftsRejected` | demo/src/features/auth/components/register-form.tsx:6-29 | the initial empty drafts get both non-empty messages |
| `Registration.RegisterForm.constructor` | demo/src/features/auth/components/register-form.tsx:6-9 | all four fields start as `""`, and the errors do not yet agree with the drafts |
| `Registration.RegisterForm.Mount` | demo/src/features/auth/components/register-form.tsx:11-29 | the first commit runs both effects: the drafts are kept and each error becomes the verdict on its field |
| `Registration.RegisterForm.SetEmail` | demo/src/features/auth/components/register-form.tsx:11-17 | stores the new e-mail; recomputes its error only when the value changed; leaves the password and its error unchanged; keeps the errors in agreement with the drafts |
| `Registration.RegisterForm.SetPassword` | demo/src/features/auth/components/register-form.tsx:19-29 | stores the new password; recomputes its error only when the value changed; leaves the e-mail and its error unchanged; keeps the errors in agreement with the drafts |
| `Registration.RegisterForm.HandleSubmit` | demo/src/features/auth/components/register-form.tsx:31-35 | prevents the default submission and logs the prefix followed by the e-mail; changes no field and does not depend on either error |
| `Registration.RegisterForm.ShowsEmailError` | demo/src/features/auth/components/register-form.tsx:89-93 | the e-mail error is shown iff its message is non-empty, which for a consistent form means iff the e-mail is not in the accepted set |
| `Registration.RegisterForm.ShowsPasswordError` | demo/src/features/auth/components/register-form.tsx:103-105 | the password error is shown iff its message is non-empty, which for a consistent form means iff the password is not in the accepted set |
| `Registration.MountNewForm` | demo/src/features/auth/components/register-form.tsx:6-29 | a freshly mounted form has empty drafts and shows both error messages |
| `StudySetsApi.QueryFnResult` | demo/src/features/study-sets/api/use-get-study-sets.ts:7-14 | the fetch function yields no data exactly when the request failed, and the response body otherwise |
| `Dashboard.HasTruthyTitle` | demo/src/routes/_protected/dashboard.lazy.tsx:29 | the truthiness test `studySet.title &&`: a title is truthy iff it is present and has at least one character |
| `Dashboard.Card` | demo/src/routes/_protected/dashboard.lazy.tsx:29-31 | an element gives one card iff its title is truthy (present and non-empty), and that card carries its title |
| `Dashboard.Cards` | demo/src/routes/_protected/dashboard.lazy.tsx:27-32 | the grid never has more cards than the list has elements, and no card has an empty title |
| `Dashboard.Render` | demo/src/routes/_protected/dashboard.lazy.tsx:13-37 | loading gives the loading line whatever the data; otherwise the empty-state text appears iff the data is a list of length zero; absent data gives an empty grid; a grid never has more cards than the data has elements |
| `Dashboard.CardsAppend` | demo/src/routes/_protected/dashboard.lazy.tsx:27-32 | the cards of two lists put together are the cards of the first followed by the cards of the second |
| `Dashboard.CardsCons` | demo/src/routes/_protected/dashboard.lazy.tsx:27-32 | the cards of a list are the first element's card followed by the cards of the rest |
| `Dashboard.CardsAt` | demo/src/routes/_protected/dashboard.lazy.tsx:27-32 | element i's card comes after the cards of the elements before it and before the cards of the elements after it, which is list order |
| `Dashboard.CardsMembership` | demo/src/routes/_protected/dashboard.lazy.tsx:29 | a title is on a card iff some element carries it and it is non-empty |
| `Dashboard.CardsOnePerElement` | demo/src/routes/_protected/dashboard.lazy.tsx:27-32 | there are as many cards as elements iff every title is truthy |
| `Dashboard.CardsNone` | demo/src/routes/_protected/dashboard.lazy.tsx:27-32 | there are no cards iff no title is truthy |
| `Dashboard.RenderWhileLoading` | demo/src/routes/_protected/dashboard.lazy.tsx:16-18 | while loading the page is the loading line, whatever the data |
| `Dashboard.RenderEmptyList` | demo/src/routes/_protected/dashboard.lazy.tsx:23-24 | a list of length zero gives the empty-state text and no cards |
| `Dashboard.RenderNonEmptyList` | demo/src/routes/_protected/dashboard.lazy.tsx:26-32 | a non-empty list gives a grid of its cards, whose titles are exactly the truthy titles of the list |
| `Dashboard.RenderAllTitlesFalsy` | demo/src/routes/_protected/dashboard.lazy.tsx:23-32 | a non-empty list whose titles are all empty or absent gives an empty grid, not the empty-state text |
| `Dashboard.RenderAfterFailedFetch` | demo/src/routes/_protected/dashboard.lazy.tsx:23-27 | after a failed first load, which leaves no data, the page is an empty grid and not the empty-state text |
| `Dashboard.RenderExample` | demo/src/routes/_protected/dashboard.lazy.tsx:27-32 | the list Math, "", Art gives exactly the cards Math and Art, in that order |
| `Dashboard.DashboardHeader.constructor` | demo/src/routes/_protected/dashboard.lazy.tsx:40 | the create dialog starts closed |
| `Dashboard.DashboardHeader.ClickCreate` | demo/src/routes/_protected/dashboard.lazy.tsx:46 | the "Create study set" button opens the dialog |
| `Dashboard.DashboardHeader.SetOpen` | demo/src/routes/_protected/dashboard.lazy.tsx:52 | the setter handed to the dialog sets the flag to the given value |

## Left out

- Query caching, request de-duplication, refetching and cache invalidation.
  These live in the query library, whose code is not part of this model.
  `Render` takes the loading flag and the data as inputs.
- `Dashboard.RenderAfterFailedFetch`: the model takes the page's data to be
  the fetch function's result. A refetch that fails after an earlier success
  (for instance the one a successful create triggers by invalidating the list)
  is not modelled; there the query library keeps the earlier list.
- The create mutation in `use-create-study-set.ts`, which posts the dialog's
  `name` as `title` and then shows a toast and invalidates the list. It is a
  call into the HTTP client and the query library. The create dialog itself is
  not part of this model.
- The HTTP client configuration (`axios-config.ts`), the Kafka controller and
  listener, the route shells, the sidebar constants and the card component.
  They are I/O, wiring or presentation, with no decision of their own.
- Styling: CSS classes, the red border and the error paragraph's markup. Only
  the rule "shown iff the message is non-empty" is modelled. React keys are
  not modelled either.
- `HandleSubmit`: the console output is returned as a string instead of being
  printed. The event object is reduced to the fact that its default action is
  prevented.
- `StudySetsApi.StudySet`: a response body that is not an array, and titles
  that are neither strings nor absent, are outside the model. The response is
  untyped, so such values can occur in the code.
- Strings are sequences of `char`. JavaScript strings are UTF-16 code units;
  both patterns use ASCII classes only, so a non-ASCII character is rejected
  either way.
