# Mergington activity signup: registry and participant display, in Dafny

This project models the two parts of the Mergington High School activity-signup app that carry logic.

- **The activity registry** is the in-memory map from activity name to activity record. The server exposes it through three requests:
  - `GET /activities` lists the whole map.
  - `POST /activities/{name}/signup?email=…` appends the email to that activity's participants.
  - `DELETE /activities/{name}/unregister?email=…` removes the email.

  Each request answers with a confirmation or one of three client errors: activity not found, already signed up, not signed up. The server module (`src/app.py`) is not part of this model. Its behaviour is taken from the test suite `tests/test_activities.py`, which pins it down request by request.
- **The participant formatter** in the browser script `src/static/app.js` is `formatParticipant`. It turns an email such as `john.smith@x` into the display name `John Smith` and the badge initials `JS`. The same script computes the card's "spots left" count.

Files:

- `strings.dfy` (module `Strings`) models the string built-ins the two parts use. These are JavaScript `split` and `join`, ASCII upper and lower case, and Python's substring test. Joining the pieces of any split gives the string back, and splitting a join gives the pieces back on lists of one or more separator-free pieces.
- `registry.dfy` (module `ActivityRegistry`) holds the registry:
  - the `Activity` record, the `Outcome` of a request and the duplicate-free invariant `WellFormed`;
  - `SignupStep` and `UnregisterStep`, pure functions saying what one request answers and what registry it leaves;
  - the `Registry` class, whose `activities` map field its `Signup` and `Unregister` methods update in place, each proved to agree with its step function and to keep `WellFormed`;
  - lemmas for the test suite's multi-request facts: add-then-remove restores the registry, a second unregister fails, the same email can join two activities.
- `activity_view.dfy` (module `ActivityView`) holds `formatParticipant` and `spotsLeft`:
  - `FormatParticipant` follows the script's chain step by step: `split("@")[0]`, `replace(/[._-]+/g, " ")`, `split(" ")`, `filter(Boolean)`, capitalisation, `join(" ")` and the `|| raw` fallbacks;
  - the chain is proved to produce exactly the tokens of `Tokenizer.Tokens`.
- `tokens.dfy` (module `Tokenizer`) is an independent reference tokenizer. Its tokens are the maximal runs of characters other than `.`, `_`, `-` and space.

## Model

| member | source | states |
|---|---|---|
| `Strings.Split` | src/static/app.js:10-11 | `split(c)` yields at least one piece, no piece contains `c`, the first piece is the prefix before the first `c` (or the whole string if there is none) |
| `Strings.Join` | src/static/app.js:12 | `join(c)` output starts with the first piece |
| `Strings.JoinSplit` | src/static/app.js:10-11 | joining the pieces of a split with the same separator gives back the original string |
| `Strings.SplitJoin` | src/static/app.js:12 | splitting a join of one or more separator-free pieces gives back the pieces, so the display name is exactly its words joined by single spaces |
| `Strings.UpperChar` | src/static/app.js:12-13 | upper-casing one character leaves no lower-case letter, keeps every character that is not a lower-case letter, and turns a lower-case letter into an upper-case one |
| `Strings.LowerChar` | tests/test_activities.py:81 | lower-casing one character leaves no upper-case letter, keeps every character that is not an upper-case letter, and turns an upper-case letter into a lower-case one |
| `Strings.CaseFolding` | src/static/app.js:12-13 | upper-casing a character does not change it case-insensitively, and lower-casing does not change it up to upper case |
| `Strings.Upper` | src/static/app.js:12-13 | `toUpperCase` keeps the length, leaves no lower-case letter, keeps every character that is not a lower-case letter, and agrees with the input character by character once both are lower-cased |
| `Strings.Lower` | tests/test_activities.py:81 | `lower()` keeps the length, leaves no upper-case letter, keeps every character that is not an upper-case letter, and agrees with the input character by character once both are upper-cased |
| `Strings.ContainsMiddle` | tests/test_activities.py:59 | a string contains every string it is built around: `t in a + t + b` |
| `Strings.ContainsAt` | tests/test_activities.py:158 | an occurrence of `t` at any position of `s` makes `t in s` true |
| `Strings.ContainsIndex` | tests/test_activities.py:91 | when `t in s` holds, `t` occurs in `s` at the returned position |
| `ActivityRegistry.Confirmation` | tests/test_activities.py:56-59 | a signup or unregister confirmation mentions the email and the activity |
| `ActivityRegistry.Detail` | tests/test_activities.py:80-91 | the lower-cased error detail contains "not found", "already signed up" or "not signed up", matching the error kind |
| `ActivityRegistry.RemoveFirst` | tests/test_activities.py:128-146 | removing an email drops exactly one occurrence (the first): length minus one, multiset minus the email, the other entries in their order |
| `ActivityRegistry.RemoveFirstNoDuplicates` | tests/test_activities.py:143-146 | on a duplicate-free list the removed email is absent afterwards and the list stays duplicate-free |
| `ActivityRegistry.RemoveFirstAppended` | tests/test_activities.py:190-220 | appending an absent email and removing it restores the list |
| `ActivityRegistry.SignupStep` | tests/test_activities.py:50-109 | unknown activity gives NotFound, checked before duplication; an email already listed gives AlreadySignedUp; an error leaves the registry unchanged; otherwise Ok with a message naming the email and the activity, the email appended to that list and nothing else changed |
| `ActivityRegistry.UnregisterStep` | tests/test_activities.py:115-184 | unknown activity gives NotFound; an unlisted email gives NotSignedUp; an error leaves the registry unchanged; otherwise Ok with a message naming the email and the activity, the list one shorter with the email removed, and nothing else changed |
| `ActivityRegistry.SignupKeepsWellFormed` | tests/test_activities.py:73-81 | signup never puts an email on a participant list twice |
| `ActivityRegistry.UnregisterKeepsWellFormed` | tests/test_activities.py:128-146 | unregister keeps every list duplicate-free, and after success the email is not on the list |
| `ActivityRegistry.SignupThenUnregisterRestores` | tests/test_activities.py:190-220 | a fresh signup succeeds, puts the email on the list and grows it by exactly one; the following unregister succeeds and leaves the registry exactly as before |
| `ActivityRegistry.UnregisterTwiceFails` | tests/test_activities.py:170-184 | a second unregister of the same email from the same activity fails with NotSignedUp |
| `ActivityRegistry.SignupToTwoActivities` | tests/test_activities.py:93-109 | one email can sign up to two different activities, and it is on both lists afterwards |
| `ActivityRegistry.SeedRequests` | tests/test_activities.py:50-220 | from startup data that meets the tests' assumptions, each test gets its expected outcome, including test@mergington.edu joining Chess Club and Programming Class and integration@mergington.edu signing up and unregistering with the registry restored |
| `ActivityRegistry.Registry.constructor` | tests/conftest.py:9 | the registry starts as the given duplicate-free startup data |
| `ActivityRegistry.Registry.List` | tests/test_activities.py:8-44 | listing returns the current registry unchanged, and every list in it is duplicate-free |
| `ActivityRegistry.Registry.Signup` | tests/test_activities.py:50-109 | the in-place signup answers and updates exactly as `SignupStep`, and keeps the registry duplicate-free |
| `ActivityRegistry.Registry.Unregister` | tests/test_activities.py:115-184 | the in-place unregister answers and updates exactly as `UnregisterStep`, and keeps the registry duplicate-free |
| `ActivityRegistry.SignupUnregisterFlow` | tests/test_activities.py:190-220 | on the live registry, signup then unregister of a fresh email both succeed with messages naming the email, and the registry ends as it began |
| `ActivityView.LocalPart` | src/static/app.js:10 | the local part is a prefix of the text without `@`; it is the whole text when there is no `@`, else it ends right before the first `@` |
| `ActivityView.Collapse` | src/static/app.js:11 | after the replacement no `.`, `_` or `-` remains |
| `ActivityView.CollapsePrefix` | src/static/app.js:11 | a leading stretch without `.`, `_` or `-` passes through the replacement unchanged |
| `ActivityView.CollapseSeparatorFree` | src/static/app.js:11 | text without `.`, `_` or `-` is unchanged by the replacement |
| `ActivityView.SkipSeparatorRun` | src/static/app.js:11 | the regular expression's match of a run `[._-]+` ends exactly where the run ends |
| `ActivityView.CollapseRun` | src/static/app.js:11 | a whole run of one or more `.`, `_`, `-` followed by anything else becomes exactly one space |
| `ActivityView.NonEmpty` | src/static/app.js:11 | `filter(Boolean)` keeps exactly the non-empty strings: a string is in the result if and only if it is a non-empty input piece; the result is no longer than the input |
| `ActivityView.NonEmptyAppend` | src/static/app.js:11 | filtering a concatenation is the concatenation of the filtered parts, so the order of the kept strings is the input order |
| `ActivityView.SplitWords` | src/static/app.js:11 | each word of the replace / split / filter chain is non-empty and holds no space |
| `ActivityView.Words` | src/static/app.js:10-11 | the words of a participant text are exactly the reference tokens of its local part |
| `ActivityView.Capitalize` | src/static/app.js:12 | capitalising keeps the length and every character after the first, leaves a first character that is not a lower-case letter, does not change a word that starts with no lower-case letter, and is the same word once lower-cased |
| `ActivityView.CapitalizeKeepsWord` | src/static/app.js:12 | capitalising a word adds no `.`, `_`, `-` or space |
| `ActivityView.CapitalizeAll` | src/static/app.js:12 | each word keeps its length and every character after the first; its first character is no longer a lower-case letter; lower-cased, it is the original word; a word stays a word |
| `ActivityView.InitialsOf` | src/static/app.js:13 | the initials have length min(2, number of words); each is the first letter of its word, case-insensitively, and none is a lower-case letter |
| `ActivityView.FormatParticipant` | src/static/app.js:8-15 | with no words, name is the raw text and initials its first two characters upper-cased; with words, the name splits on spaces back into the capitalised words, and the initials are the upper-cased first letters of the first one or two words; name and initials are each empty exactly when the text is empty |
| `ActivityView.EmptyHasNoWords` | src/static/app.js:9-11 | the empty text has no words |
| `Tokenizer.Tokens` | src/static/app.js:11 | reference tokenizer: each token is non-empty and contains no `.`, `_`, `-` or space |
| `Tokenizer.TokensAvoid` | src/static/app.js:10-11 | a character absent from the text is absent from every token |
| `ActivityView.SplitWordsAreTokens` | src/static/app.js:11 | the replace / split / filter chain gives exactly the maximal runs of non-delimiter characters, in order |
| `ActivityView.WordsShape` | src/static/app.js:10-11 | every word is non-empty and contains no `.`, `_`, `-`, space or `@` |
| `ActivityView.WordsIgnoreDomain` | src/static/app.js:10 | only the text before the first `@` matters: any two domains give the same words |
| `ActivityView.LocalPartBeforeAt` | src/static/app.js:10 | the local part of `local@domain` is `local` when `local` has no `@` |
| `ActivityView.SpotsLeft` | src/static/app.js:32 | spots left is at most the capacity, equals it exactly when nobody is signed up, and is zero or less exactly when the list has reached the capacity |
| `ActivityView.SpotsAfterRequests` | src/static/app.js:32 | a successful signup lowers the spots-left count by one; a successful unregister raises it by one |
| `ActivityView.CapacityNotEnforced` | src/static/app.js:32 | a full activity still accepts a fresh email, and its spots-left count becomes negative |

## Left out

- HTTP routing, status codes (404/400/200) and JSON encoding are left out. Requests are modelled as functions and methods returning an `Outcome`.
- The wording of messages is left out. `src/app.py` is not part of this model. The tests check only that a confirmation contains the email, and that the lower-cased error detail contains "not found", "already signed up" or "not signed up". The texts in `SignupMessage`, `UnregisterMessage` (both built by `Confirmation`) and `Detail` are one choice that meets those checks.
- The startup data is a parameter of `Registry.constructor`, because `src/app.py` is not part of this model. `TestedSeed` states what the tests assert or assume about it: the nine activity names, a non-empty Chess Club list holding michael@mergington.edu, no "Nonexistent Club", and fresh test emails. Descriptions, schedules and capacities are not modelled beyond their fields.
- The test fixtures are left out as test plumbing: the `TestClient`, the `sys.path` set-up and the snapshot/restore fixture `reset_activities` (tests/conftest.py).
- `formatParticipant` is modelled for string arguments only. `String(text || "")` also accepts null, undefined and numbers, but the page only ever passes it participant emails.
- `toUpperCase` and `lower()` are modelled on ASCII letters only. Full Unicode case mapping can change string length. JavaScript strings are modelled as sequences of characters rather than UTF-16 code units.
- All DOM work in `src/static/app.js` is left out as UI and asynchronous I/O: `fetchActivities`, HTML building, the submit and delete handlers, `fetch` and `setTimeout` (lines 17-166). HTML escaping is left out with it.
- Concurrency is left out. The tests run single-threaded, and no locking exists in the code shown.
