# AEON login and dashboard: a Dafny model

This project models the logic of a small demo banking front-end written as
React components. Each component's logic is pulled out into plain state and
transitions, and every network reply becomes an input value.

- **Session store** (`AuthContext`). One "logged in" flag.
  - It is read once from `localStorage` under `aeon_is_logged_in` as `stored === 'true'`, and is false when there is no window.
  - It is written back as `'true'` or `'false'` each time it changes.
  - `useAuth` fails outside a provider.
  - Modelled as the class `AuthProvider`, with the flag and a string-to-string storage map.
- **Login step machine** (`LoginPage`). Four steps: username, secure-word confirmation, password and result.
  - The username is trimmed (`String.prototype.trim`, in `JsText`) and checked against `/^[a-zA-Z0-9]+$/`.
  - Each handler is a method of the class `LoginFlow` that takes the request's reply: `Succeeded(value)`, `NotSuccess` or `Exception`.
  - The result screen decides success with `statusMessage.includes('successful')`.
- **Dashboard** (`Dashboard`). The class `DashboardPage` holds the effect keyed on the session flag.
  - `SessionEffect` either clears the list, loading and error, or starts the fetch.
  - `FetchSettled` applies the reply once the fetch settles.
  - The pure `RenderContent` picks, in strict priority: access denied, then the spinner, then the error, then the table.
- **Transaction table** (`TransactionTable`). The empty-list message, one row per transaction, and `formatCurrency`.
  - `formatCurrency` is modelled on integer cents, as `toFixed(2)` followed by the literal `/\B(?=(\d{3})+(?!\d))/g` replace.
  - The replace puts a comma at every position where the expression matches.
  - It is proved equal to grouping the integer part in thousands, and deleting the commas gives back the `toFixed(2)` text.

Two facts about the login page that the model follows:
- The session's `login()` is called as soon as the credential reply succeeds (app/login/page.tsx:91-94). "Go to Dashboard" only navigates.
- `handleFinalLogin` does not check the password. Only the button's `disabled` flag and the input's `required` attribute do, so `HandleFinalLogin` has no precondition on the password.

Two more behaviours of the code that the model keeps as they are:
- The final login sends `username` as stored, untrimmed. An accepted name is looked up trimmed, but the stored text is not replaced by the trimmed one, so it may still carry the surrounding whitespace.
- A success reply whose message lacks `successful` still logs the session in, but step 4 then offers "Try Again". The stub service's only success message contains the word.

## Model

| member | source | states |
|---|---|---|
| JsText.TrimStartShape | app/login/page.tsx:35 | trimming the start keeps a suffix, removes only whitespace or line terminators, and stops at the first other character |
| JsText.TrimEndShape | app/login/page.tsx:35 | trimming the end keeps a prefix, removes only whitespace or line terminators, and stops at the last other character |
| JsText.Trim | app/login/page.tsx:35 | definition of `s.trim()`: trim the start, then the end; properties in `JsText.TrimShape` and `JsText.TrimDropsSurroundings` |
| JsText.TrimShape | app/login/page.tsx:35 | `trim` leaves no trimmable character at either end, and its result is `s` with a trimmable prefix and a trimmable suffix cut off |
| JsText.TrimDropsSurroundings | app/login/page.tsx:35 | any trimmable characters around a trimmed string are removed by `trim`, giving that string back exactly |
| JsText.TrimOfTrimmable | app/login/page.tsx:35-37 | a string of only whitespace trims to the empty string |
| JsText.MatchesAlphanumeric | app/login/page.tsx:13 | definition of `/^[a-zA-Z0-9]+$/.test`; properties in `JsText.MatchesAlphanumericExactly` |
| JsText.MatchesAlphanumericExactly | app/login/page.tsx:13 | `/^[a-zA-Z0-9]+$/` accepts a string if and only if it is non-empty and every character is an ASCII letter or digit |
| JsText.AlphanumericIsTrimmed | app/login/page.tsx:13 | a string the pattern accepts has nothing `trim` would strip at either end |
| JsText.Includes | app/login/page.tsx:186 | `s.includes(t)` holds if and only if `t` occurs in `s` at some index |
| JsText.OccursBetween | app/api/login/route.ts:12 | a string placed between two others occurs right after the first |
| JsText.NoOccurrenceWithLoneSecond | app/login/page.tsx:213 | a text whose only copy of `t`'s second character is not preceded by `t`'s first character does not include `t` |
| LoginPage.CheckUsername | app/login/page.tsx:35-46 | definition of the two username checks of the submit handler; properties in `LoginPage.CheckUsernameVerdicts` |
| LoginPage.CheckUsernameVerdicts | app/login/page.tsx:35-46 | the username is rejected as empty if and only if it trims to nothing, and as invalid if and only if its trimmed text holds a character outside `[a-zA-Z0-9]`; otherwise the trimmed text is accepted |
| LoginPage.SurroundingWhitespaceAccepted | app/login/page.tsx:35-55 | a valid name with any whitespace around it is accepted, and the bare name is what gets looked up |
| LoginPage.ResultActionFor | app/login/page.tsx:190-219 | step 4 offers "Go to Dashboard" if and only if the message contains `successful`, and "Try Again" otherwise |
| LoginPage.FailureMessagesOfferTryAgain | app/login/page.tsx:96-101 | both fixed failure messages of the final login lack `successful`, so each leads to "Try Again" |
| LoginPage.StubSuccessMessageOffersDashboard | app/api/login/route.ts:10-13 | the stub service's success message leads to "Go to Dashboard" |
| LoginPage.FinalLoginMessage | app/login/page.tsx:91-102 | definition of the message the final login leaves for each reply; properties in `LoginPage.FailedLoginOffersTryAgain` and `LoginPage.LoginFlow.HandleFinalLogin` |
| LoginPage.FailedLoginOffersTryAgain | app/login/page.tsx:95-102 | a final login that gets a non-success reply or an exception always leaves step 4 offering "Try Again" |
| LoginPage.LoginFlow.constructor | app/login/page.tsx:18-24 | the flow starts on step 1 with empty fields, not loading, and with no message |
| LoginPage.LoginFlow.EditUsername | app/login/page.tsx:121 | typing on step 1 replaces the username and keeps the flow valid |
| LoginPage.LoginFlow.EditPassword | app/login/page.tsx:168 | typing on step 3 replaces the password and keeps the flow valid |
| LoginPage.LoginFlow.HandleUsernameSubmit | app/login/page.tsx:33-72 | an empty username keeps the text; an invalid one clears it. Neither makes a request and both leave step 1 with the matching message. Otherwise the trimmed name is sent: success stores the secure word and moves to step 2, and a non-success reply or an exception stays on step 1 with its own message. Loading is off at the end in every case |
| LoginPage.LoginFlow.ConfirmSecureWord | app/login/page.tsx:149 | "Next" always moves from step 2 to step 3 and clears the message, with no check of the secure word |
| LoginPage.LoginFlow.HandleFinalLogin | app/login/page.tsx:74-106 | the request carries the stored username and the digest of the password. The flow always ends on step 4 with loading off. The message is the server's on success and the fixed failure message otherwise. The session is logged in and persisted only on success, and untouched otherwise |
| LoginPage.LoginFlow.TryAgainFromResult | app/login/page.tsx:213-219 | "Try Again" returns to step 1 with the password and message cleared, keeping the username and the secure word |
| LoginPage.FailedLoginRetry | app/login/page.tsx:95-98 | a failed final login followed by "Try Again" is back on step 1 with the same username, an empty password, and the session's flag and storage unchanged |
| AuthContext.FlagText | app/context/AuthContext.tsx:26 | `toString` of the flag is `'true'` exactly for true and `'false'` exactly for false |
| AuthContext.ReadFlag | app/context/AuthContext.tsx:16-22 | the initial flag is true if and only if there is a window and the stored value under `aeon_is_logged_in` is exactly `'true'`; an absent key, any other text or no window gives false |
| AuthContext.WriteFlag | app/context/AuthContext.tsx:26 | `setItem` stores the flag's text under the key, adds no other key and leaves every other entry unchanged |
| AuthContext.Persist | app/context/AuthContext.tsx:24-28 | the effect writes the flag when there is a window and leaves storage alone otherwise |
| AuthContext.PersistedFlagReadsBack | app/context/AuthContext.tsx:16-28 | reading back what was persisted gives the flag that was written |
| AuthContext.PersistIdempotent | app/context/AuthContext.tsx:24-28 | writing the same flag twice leaves storage as after the first write |
| AuthContext.UseAuth | app/context/AuthContext.tsx:45-51 | `useAuth` fails with its fixed message if and only if there is no provider, and otherwise returns the provider's value |
| AuthContext.AuthProvider.constructor | app/context/AuthContext.tsx:15-28 | mounting reads the flag from storage and then writes it back, so storage and flag agree |
| AuthContext.AuthProvider.Login | app/context/AuthContext.tsx:30-32 | `login` makes the flag true and storage holds `'true'` under the key. When the flag was already true, nothing changes |
| AuthContext.AuthProvider.Logout | app/context/AuthContext.tsx:34-36 | `logout` makes the flag false and storage holds `'false'` under the key. When the flag was already false, nothing changes |
| AuthContext.Reload | app/context/AuthContext.tsx:16-28 | a provider mounted again on the storage an earlier one left starts with the same flag and the same storage |
| Dashboard.RenderContent | app/page.tsx:62-100 | access denied if and only if logged out. Otherwise the spinner if and only if loading. Otherwise the error box with the error if and only if an error is set. Otherwise the table of the current list |
| Dashboard.RowsOnlyWhenLoggedInWithoutError | app/page.tsx:63-99 | the table is shown only when logged in, not loading and with no error |
| Dashboard.DashboardPage.constructor | app/page.tsx:21-23 | the page starts with an empty list, not loading and no error |
| Dashboard.DashboardPage.SessionEffect | app/page.tsx:25-60 | when logged in, a fetch is issued with loading on and the error cleared. When logged out, no fetch is issued and the list, loading and error are cleared |
| Dashboard.DashboardPage.FetchSettled | app/page.tsx:30-50 | a successful body replaces the list. A body without success sets "Failed to fetch transaction data." and keeps the list. A non-ok status or an exception sets the connection error and keeps the list. Loading ends in every case |
| Dashboard.DashboardPage.Content | app/page.tsx:116 | definition: `renderContent` on the page's current state; properties in `Dashboard.RenderContent` |
| Dashboard.StubHistoryRendering | app/api/transaction-history/route.ts:3-28 | the three stub records render as three rows with amounts `RM 1,200.00`, `RM 54,810.16` and `RM 100.00` |
| Dashboard.LoginFetchLogout | app/page.tsx:53-63 | logging in, fetching and logging out ends showing access denied with the list cleared |
| Dashboard.LateReplyAfterLogout | app/page.tsx:25-63 | a fetch that settles after logout still stores its list, but the page shows access denied |
| TransactionTable.Numeral | app/components/TransactionTable.tsx:28 | the integer part of `toFixed` is a non-empty string of digits with no leading zero |
| TransactionTable.NumeralRoundTrip | app/components/TransactionTable.tsx:28 | reading the printed integer part back gives the number |
| TransactionTable.TwoDigits | app/components/TransactionTable.tsx:28 | the fraction is exactly two digits that denote the cents |
| TransactionTable.ToFixed2 | app/components/TransactionTable.tsx:28 | definition of `amount.toFixed(2)` on whole cents; properties in `TransactionTable.ToFixed2Denotes` |
| TransactionTable.ToFixed2Denotes | app/components/TransactionTable.tsx:28 | `toFixed(2)` prints an optional minus sign (exactly for negative amounts), digits, a point and exactly two digits, and the text denotes the amount |
| TransactionTable.SeparateFrom | app/components/TransactionTable.tsx:28 | definition of the `/g` replace from a position on: a comma wherever `\B(?=(\d{3})+(?!\d))` matches; properties in `TransactionTable.SeparateFraction`, `TransactionTable.SeparateIntegerPart` and `TransactionTable.SeparateFixedText` |
| TransactionTable.SeparateThousands | app/components/TransactionTable.tsx:28 | definition of the whole replace; properties in `TransactionTable.SeparateFixedText` and `TransactionTable.SeparateFixed` |
| TransactionTable.DigitRunIsMaximal | app/components/TransactionTable.tsx:28 | the digit run from a position is the longest stretch of digits there |
| TransactionTable.GroupsOfThreeAheadIsLiteral | app/components/TransactionTable.tsx:28 | the lookahead `(?=(\d{3})+(?!\d))` holds if and only if the digits ahead form one or more whole groups of three followed by a non-digit |
| TransactionTable.GroupDigitsLength | app/components/TransactionTable.tsx:28 | grouping adds one comma per full group of three after the first digit, and starts with the first digit |
| TransactionTable.GroupDigitsCommas | app/components/TransactionTable.tsx:28 | in the grouped integer part, commas sit exactly every three digits counted from the decimal point, never first, and every other character is a digit |
| TransactionTable.GroupDigitsDeleteCommas | app/components/TransactionTable.tsx:28 | deleting the commas from the grouping gives the digits back |
| TransactionTable.DeleteCommasLeavesNone | app/components/TransactionTable.tsx:28 | deleting commas leaves no comma and never lengthens the text |
| TransactionTable.SeparateFraction | app/components/TransactionTable.tsx:28 | the replace inserts nothing from the decimal point on |
| TransactionTable.SeparateFixedText | app/components/TransactionTable.tsx:28 | on `toFixed(2)` text the replace keeps the sign and the fraction and groups the integer part in thousands |
| TransactionTable.SeparateFixed | app/components/TransactionTable.tsx:28 | the replace turns `sign + digits + "." + fraction` into `sign + grouped digits + "." + fraction` |
| TransactionTable.FormatCurrency | app/components/TransactionTable.tsx:27-29 | definition of `formatCurrency`: `RM ` and the replace applied to `toFixed(2)`; properties in `TransactionTable.FormatCurrencyGroupsThousands` and `TransactionTable.FormatCurrencyDeleteCommas` |
| TransactionTable.FormatCurrencyGroupsThousands | app/components/TransactionTable.tsx:27-29 | `formatCurrency` is `RM `, the sign, the integer part grouped in thousands, the point and two digits |
| TransactionTable.FormatCurrencyDeleteCommas | app/components/TransactionTable.tsx:28 | the output starts with `RM `, and deleting the commas after it gives back the `toFixed(2)` text |
| TransactionTable.FormatCurrencyOfParts | app/components/TransactionTable.tsx:28 | a non-negative amount is formatted from its printed integer part, grouped, and its two cent digits |
| TransactionTable.FormatCurrencyThousand | app/components/TransactionTable.tsx:28 | 1200.00 is formatted as `RM 1,200.00` |
| TransactionTable.FormatCurrencyTensOfThousands | app/components/TransactionTable.tsx:28 | 54810.16 is formatted as `RM 54,810.16` |
| TransactionTable.FormatCurrencyHundred | app/components/TransactionTable.tsx:28 | 100.00 is formatted as `RM 100.00`, with no comma |
| TransactionTable.RowOf | app/components/TransactionTable.tsx:54-71 | a row's amount cell is `formatCurrency` of the transaction's amount |
| TransactionTable.RenderRows | app/components/TransactionTable.tsx:49-73 | one row per transaction, in input order |
| TransactionTable.RenderTable | app/components/TransactionTable.tsx:23-75 | an empty list shows only "No transactions found for this period." and no table. Otherwise there is one row per transaction, each with its formatted amount |

## Left out

- `fetch`, `response.json()` and async scheduling. Each settled request is an input value. For the dashboard, the start and the settling of the fetch are two separate calls, so an interleaving with logout can be written down (`LateReplyAfterLogout`). Concurrent interleavings beyond explicit sequences of calls are not modelled.
- `sha256.hex` from js-sha256 is a foreign library. It is a function parameter of `HandleFinalLogin`, and nothing is assumed about it.
- Floating-point amounts. `toFixed(2)` is modelled on whole cents, so binary rounding and exponent notation for very large values are not modelled.
- The API route handlers are not part of this model. Their fixed outputs appear only as example inputs: the success message, and the three stub records.
- `console.error` logging, which has no effect on state.
- Navigation is not part of this model: `handleRedirect` (`isRedirecting`, `setTimeout`, `window.location`).
- Presentational code is not part of this model: the navigation bar, the layout wrapper, styling and JSX markup, the banner colour choice below the steps, and the step counter text.
- The buttons' `disabled` flags and the inputs' `required` attributes are not modelled. In particular, the empty-password guard exists only there.
- React batching and re-rendering are not modelled. A `setState` to the value already held is treated as not re-running the persistence effect, which is observably the same because storage already holds that value.
- HandleUsernameSubmit runs the username check, the lookup and its settling as one step. In the page, the username input stays enabled while the lookup is in flight (app/login/page.tsx:117-125), so text typed then reaches step 2 unchecked (app/login/page.tsx:60-62) and is what the final login sends (app/login/page.tsx:86). The invariant `LoginFlow.Valid` (past step 1 the username passes the checks) holds only for the model's one-step handler; that interleaving is not modelled.
