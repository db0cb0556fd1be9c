# poll-app decision logic in Dafny

This project models the small decision functions spread through the poll-app
front end (a Next.js/React polling application) and proves what they promise.
The modelled pieces are:

- **Text and arithmetic helpers** of `src/lib/utils.ts`: percentage rounding,
  truncation with an ellipsis, the email-shape regular expression, the slug
  pipeline and the `hsl` → `hsla` opacity rewrite.
- **Password strength and the auth forms**: the five-check strength scorer
  with its indicator and field aria wiring, the field rules of the login and
  register schemas, and what each form's submit handler does with a failure.
- **Responsive breakpoints** of `src/hooks/use-responsive_new.ts` and the
  grid, gap, content-slot and `OnlyOn*` decisions built on them.
- **Poll aggregation**: the poll list's search/status filter, leading option
  and totals, and the result view's badges. The result view also sorts its
  option statistics in place and then colours each row by looking it up in
  the sorted array.
- **The poll form**: a bounded option list (2..10 rows) with guarded add and
  remove, and the normalisation done on submit.
- **The middleware**: the route-gating decision and the request matcher.
- **Theme**: the theme utilities (`applyTheme` on the root class list,
  palette lookups, contrast colour, media queries) and the `ThemeProvider`
  state (initial selection, toggle, apply-and-persist after mount,
  `useTheme` fallback).

Each core file has its own module. Pure code is modelled as functions and
lemmas. State the source changes in place is modelled with classes:

- `LoginForm.LoginFormState` and `RegisterForm.RegisterFormState` hold the
  submit error and the field errors.
- `PollForm.OptionList` holds the field array.
- `ThemeUtils.DocumentRoot` holds the root element's class list.
- `ThemeContext.ThemeProvider` holds the theme, the mounted flag and the
  key-value store.

The result view's breakdown sort is an in-place insertion sort on an
`array`, proved equal to a reference stable sort.

The surroundings become parameters:

- the session lookup of the middleware is a boolean;
- "now" of the result view is an integer time;
- the window's colour-scheme preference is a boolean;
- the browser's key-value store is a map;
- an `onSubmit` call's outcome is a value (resolved, or rejected with an
  `Error` or with another thrown value);
- Zod's `.email()` check is a boolean `emailFormatOk`.

`Wrappers`, `Strings` and `Seqs` are shared helpers:

- `Option`;
- ASCII character classes, prefix and substring tests, first-occurrence
  replace, decimal rendering;
- `Array.prototype.filter` as `Select`, and the first-maximum `reduce`.

## Model

| member | source | states |
|---|---|---|
| TextUtils.CalculatePercentage | src/lib/utils.ts:46-49 | 0 when the total is 0; otherwise the result is 100·value/total rounded half up, stated as the bracketing inequality 2tr ≤ 200v + t < 2tr + 2t (sign-flipped for a negative total) |
| TextUtils.RoundHalfUp | src/lib/utils.ts:48 | floor division: d·q ≤ n < d·q + d |
| TextUtils.PercentageInRange | src/lib/utils.ts:46-49 | for 0 ≤ value ≤ total the percentage lies in 0..100 |
| TextUtils.PercentageMonotone | src/lib/utils.ts:46-49 | for a fixed positive total the percentage is non-decreasing in the value |
| TextUtils.PercentageExamples | src/lib/utils.ts:46-49 | 45 of 130 gives 35; 0 of 0 gives 0 |
| TextUtils.SliceEnd | src/lib/utils.ts:56 | the end index `slice(0, end)` uses: clamped to the length, counted from the end when negative |
| TextUtils.TruncateText | src/lib/utils.ts:54-57 | text no longer than maxLength is returned unchanged; otherwise the first maxLength characters followed by "..." (and for a negative maxLength, the text less its last characters plus "...") |
| TextUtils.TruncateBounds | src/lib/utils.ts:54-57 | for maxLength ≥ 0 the result is at most maxLength + 3 long and is either the text or its truncation |
| TextUtils.TruncateIdempotent | src/lib/utils.ts:54-57 | truncating a truncated text again with the same maxLength changes nothing |
| TextUtils.ValidateEmailIffShape | src/lib/utils.ts:77-80 | `ValidateEmail` (the regular expression, split at its `@` and `.`) accepts exactly the strings with no whitespace, one `@` with a non-empty part before it, and a `.` after it with at least one character on each side |
| TextUtils.EmailExamples | src/lib/utils.ts:77-80 | `a@b.c` is accepted; `a@b` and `a b@c.d` are rejected |
| TextUtils.StripDisallowed | src/lib/utils.ts:88 | the result is the input with every character outside `[\w\s-]` removed and the rest kept in order; it adds no upper-case letter and leaves an already clean string unchanged |
| TextUtils.CollapseSeparators | src/lib/utils.ts:89 | no `--` in the result, empty exactly for empty input, the first character kept when it is not a separator, and slug characters only when the input had only lower-case letters, digits and separators; `CollapseSplit` states where the hyphens go |
| TextUtils.DropKeepsOthers | src/lib/utils.ts:89 | skipping a leading run of separators loses no other character |
| TextUtils.CollapseKeepsOthers | src/lib/utils.ts:89 | the collapse keeps every non-separator character in order and adds only hyphens |
| TextUtils.DropRun | src/lib/utils.ts:89 | a whole run of separators in front of a non-separator is skipped, and nothing after it |
| TextUtils.DropStopsInside | src/lib/utils.ts:89 | skipping separators stops inside a part that ends in a non-separator, leaving what follows it untouched |
| TextUtils.CollapseSplit | src/lib/utils.ts:89 | each maximal run of separators is replaced, in place, by exactly one `-`: between a part ending in a non-separator and one starting with a non-separator, the collapse of the whole is the two parts' collapses joined by `-` |
| TextUtils.TrimLeadingKeepsOthers | src/lib/utils.ts:90 | removing leading hyphens loses no other character |
| TextUtils.TrimTrailingKeepsOthers | src/lib/utils.ts:90 | removing trailing hyphens loses no other character |
| TextUtils.AlnumIsKeptNonSeparator | src/lib/utils.ts:88-89 | a character survives the strip and is not a separator exactly when it is an ASCII letter or digit |
| TextUtils.SlugKeepsAlnum | src/lib/utils.ts:85-91 | the four steps of the pipeline together keep exactly the letters and digits of the lower-cased text, in order |
| TextUtils.GenerateSlug | src/lib/utils.ts:85-91 | the result is a slug (only `[a-z0-9-]`, no `--`, no hyphen at either end), and its letters and digits, hyphens aside, are exactly those of the lower-cased text, in order; where the hyphens go is stated by `CollapseSplit` and `TwoWordsSlug` |
| TextUtils.TwoWordsSlug | src/lib/utils.ts:85-91 | two non-empty words of lower-case letters and digits separated by a space become the two words joined by `-` |
| TextUtils.TwoWordsCollapse | src/lib/utils.ts:86-89 | lower-casing, stripping and collapsing such a two-word text gives the words joined by `-` |
| TextUtils.CollapseJoinsWords | src/lib/utils.ts:89 | the collapse turns the space between two such words into `-` and leaves the words unchanged |
| TextUtils.CollapseFixesSlugChars | src/lib/utils.ts:89 | the collapse leaves a string of slug characters without `--` unchanged |
| TextUtils.SlugIsFixedPoint | src/lib/utils.ts:85-91 | every slug is its own slug |
| TextUtils.GenerateSlugIdempotent | src/lib/utils.ts:85-91 | the slug of a slug is itself, and a text is its own slug exactly when it is a slug |
| TextUtils.AdjustOpacity | src/lib/utils.ts:347-352 | a colour not starting with `hsl` is returned unchanged |
| TextUtils.AdjustOpacityOfHsl | src/lib/utils.ts:347-352 | `hsl(<body>)` with no `)` in the body becomes `hsla(<body>, <opacity>)` |
| FormComponents.CountTrue | src/components/auth/form-components.tsx:405 | the count of satisfied checks is at most their number, equals it exactly when all hold, and is 0 exactly when none holds |
| FormComponents.CountTrueIsMultiplicity | src/components/auth/form-components.tsx:405 | the count is the number of `true` entries, which is what `filter(Boolean).length` measures |
| FormComponents.GetPasswordStrength | src/components/auth/form-components.tsx:391-411 | empty password → score 0 with empty label and colour; otherwise the score is the number of the five checks that hold (length ≥ 8, lower case, upper case, digit, other), so 1 ≤ score ≤ 5, and label and colour follow the score |
| FormComponents.ChecksAddUp | src/components/auth/form-components.tsx:396-405 | the count of the check list is the sum of one point per satisfied check |
| FormComponents.LowerCaseOnlyIsFair | src/components/auth/form-components.tsx:391-411 | `abcdefgh` satisfies two checks and is rated Fair, yellow |
| FormComponents.EveryCharIsClassified | src/components/auth/form-components.tsx:397-403 | every non-empty password satisfies one of the four character-class checks |
| FormComponents.LabelMonotone | src/components/auth/form-components.tsx:407-410 | the label (Weak < Fair < Good < Strong) never drops as the score grows |
| FormComponents.FourChecksGiveGood | src/components/auth/form-components.tsx:396-410 | length ≥ 8 with a lower-case letter, an upper-case letter and a digit scores at least 4, labelled Good or Strong |
| FormComponents.IndicatorWidth | src/components/auth/form-components.tsx:356-383 | nothing is rendered exactly for an empty password; otherwise the bar width is score/5·100, within 20..100 |
| FormComponents.LabelTextAgreesWithBar | src/components/auth/form-components.tsx:366-372 | the label text is red exactly when the bar is red, and yellow exactly when the bar is yellow |
| FormComponents.FormFieldAria | src/components/auth/form-components.tsx:70-86 | `aria-invalid` holds exactly when an error is shown; `aria-describedby` is `<name>-error` exactly then, and equals the id of the error paragraph |
| LoginForm.EmailError | src/components/auth/login-form.tsx:23-26 | no error exactly when the email is non-empty and passes the format check; an empty email gets "Email is required", a malformed one "Please enter a valid email address" |
| LoginForm.PasswordError | src/components/auth/login-form.tsx:27-30 | accepted exactly when at least 6 characters long; the `min(1)` message for the empty password, the `min(6)` message otherwise |
| LoginForm.ParseRememberMe | src/components/auth/login-form.tsx:31 | rememberMe is true only when supplied as true; absent it defaults to false |
| LoginForm.Validate | src/components/auth/login-form.tsx:22-32 | an email error or password error is reported exactly when its rule fails, with that rule's message; rememberMe never has one |
| LoginForm.DefaultsAreRejected | src/components/auth/login-form.tsx:65-69 | the form's default values fail with the two "required" messages, and rememberMe defaults to false |
| LoginForm.LoginErrorMessage | src/components/auth/login-form.tsx:78-81 | a thrown `Error` gives its own message; anything else gives "An error occurred during login" |
| LoginForm.LoginErrorField | src/components/auth/login-form.tsx:85-89 | a message mentioning "email" (ignoring case) goes to the email field; otherwise one mentioning "password" goes to the password field; otherwise to no field |
| LoginForm.LoginFormState.constructor | src/components/auth/login-form.tsx:56 | no submit error and no field errors initially |
| LoginForm.LoginFormState.HandleFormSubmit | src/components/auth/login-form.tsx:73-91 | forwards the data; on success the submit error is cleared; on failure it becomes the Error's message (or "An error occurred during login"), which is also set on the routed field, if any |
| RegisterForm.UsernameError | src/components/auth/register-form.tsx:24-32 | accepted exactly when 3..20 characters long and every character is in `[a-zA-Z0-9_-]`; otherwise the first failing rule's message: required, at least 3, less than 20, then the allowed characters |
| RegisterForm.FirstLine | src/components/auth/register-form.tsx:41-44 | the prefix before the first line terminator, which is all a `(?=.*X)` look-ahead sees |
| RegisterForm.PasswordError | src/components/auth/register-form.tsx:37-44 | accepted exactly when at least 8 long and its first line has a lower-case letter, an upper-case letter and a digit; otherwise the required, minimum-length or pattern message, in that order |
| RegisterForm.ConfirmError | src/components/auth/register-form.tsx:45-53 | no error exactly when the confirmation is non-empty and equals the password; an empty one gets "Please confirm your password", a non-empty mismatch "Passwords don't match" |
| RegisterForm.TermsError | src/components/auth/register-form.tsx:46-48 | no error exactly when the terms are accepted; otherwise "You must accept the terms and conditions" |
| RegisterForm.Validate | src/components/auth/register-form.tsx:22-53 | each field has an error exactly when its rule fails, and the recorded message is that rule's message |
| RegisterForm.AcceptedIff | src/components/auth/register-form.tsx:22-53 | the schema accepts exactly when every field rule holds, the passwords match and the terms are accepted |
| RegisterForm.MismatchAndTermsRejected | src/components/auth/register-form.tsx:45-53 | a mismatched confirmation is reported on `confirmPassword` (as "Passwords don't match" when non-empty); unaccepted terms are reported on `acceptTerms` |
| RegisterForm.AcceptedPasswordIsStrong | src/components/auth/register-form.tsx:134-154 | every password the schema accepts has strength score ≥ 4, labelled Good or Strong |
| RegisterForm.DigitAfterLineBreakIgnored | src/components/auth/register-form.tsx:41-44 | "Abcdefgh\n1" is rejected: its digit sits after a line break |
| RegisterForm.FirstLineEndsAtBreak | src/components/auth/register-form.tsx:41-44 | a line followed by `\n` is exactly what the look-aheads see |
| RegisterForm.Forwarded | src/components/auth/register-form.tsx:103-107 | only username, email and password are passed on |
| RegisterForm.RegisterErrorMessage | src/components/auth/register-form.tsx:109-112 | a thrown `Error` gives its own message; anything else gives "An error occurred during registration" |
| RegisterForm.RegisterErrorField | src/components/auth/register-form.tsx:116-122 | a failure message goes to at most one field, by priority username, email, password (ignoring case); a message naming none goes nowhere |
| RegisterForm.RoutingAgreesWithLogin | src/components/auth/register-form.tsx:116-122 | unless "username" is mentioned, the register form routes a message exactly as the login form does |
| RegisterForm.UsernameMentionWins | src/components/auth/register-form.tsx:116-122 | "Username or email taken" goes to username in the register form but to email in the login form |
| RegisterForm.RegisterFormState.constructor | src/components/auth/register-form.tsx:78 | no submit error and no field errors initially |
| RegisterForm.RegisterFormState.HandleFormSubmit | src/components/auth/register-form.tsx:100-124 | forwards the credentials; on success the submit error is cleared; on failure it becomes the Error's message (or "An error occurred during registration"), also set on the routed field, if any |
| Responsive.RankInjective | src/hooks/use-responsive_new.ts:32-39 | the six breakpoints are ordered without ties |
| Responsive.ThresholdMonotone | src/hooks/use-responsive_new.ts:32-39 | a larger breakpoint has a strictly larger threshold (475, 640, 768, 1024, 1280, 1536) |
| Responsive.GetBreakpoint | src/hooks/use-responsive_new.ts:41-48 | the breakpoint's threshold is at most the width and the next one's is above it |
| Responsive.GetBreakpointBand | src/hooks/use-responsive_new.ts:41-48 | a width maps to a breakpoint exactly when it lies in its band; below 640 is `xs` (475 is never consulted), from 1536 up is `2xl` |
| Responsive.GetBreakpointMonotone | src/hooks/use-responsive_new.ts:41-48 | a wider window never gets a smaller breakpoint |
| Responsive.GetDeviceType | src/hooks/use-responsive_new.ts:50-56 | mobile below 768, tablet in 768..1023, desktop from 1024 |
| Responsive.DeviceTypeExactlyOne | src/hooks/use-responsive_new.ts:41-56 | exactly one device flag holds; mobile ⇔ xs/sm, tablet ⇔ md, desktop ⇔ lg/xl/2xl |
| Responsive.StateFor | src/hooks/use-responsive_new.ts:100-118 | the state carries the width's breakpoint, exactly one `isXs…is2Xl` flag (that of the breakpoint) and the device flags |
| Responsive.InitialState | src/hooks/use-responsive_new.ts:59-62 | the initial width 0 gives `xs`, only `isXs`, mobile |
| Responsive.UseBreakpoint | src/hooks/use-responsive_new.ts:121-124 | holds exactly when the width reaches the breakpoint's threshold |
| Responsive.UseBreakpointVersusClassification | src/hooks/use-responsive_new.ts:121-124 | for every key but `xs` it agrees with comparing the classified breakpoint; for `xs` it tests 475 |
| Responsive.NearestDefinedSpec | src/hooks/use-responsive_new.ts:167-185 | the reference lookup returns the value of the nearest breakpoint at or below the current one that has a value, or the default when none has |
| Responsive.UseResponsiveValue | src/hooks/use-responsive_new.ts:167-185 | the current breakpoint's own value when present, and in every case the reference lookup's value |
| Responsive.UseResponsiveValueNeverLarger | src/hooks/use-responsive_new.ts:167-185 | the current slot's value wins; otherwise the value is never taken from a larger breakpoint |
| Responsive.UseResponsiveColumns | src/hooks/use-responsive_new.ts:189-206 | the option for the current breakpoint, else that breakpoint's default |
| Responsive.ColumnsWithoutOptions | src/hooks/use-responsive_new.ts:197-205 | without options the columns are 1/2/2/3/4/4 for xs..2xl |
| PollsPage.FilterPolls | src/app/polls/page.tsx:476-492 | an order-preserving subsequence; the whole list for an empty query and `all`; only the chosen status; only search matches; and no poll passing both filters is dropped |
| PollsPage.FilterIsSelect | src/app/polls/page.tsx:476-492 | the two filter passes equal one pass with both conditions |
| PollsPage.SearchIgnoresCase | src/app/polls/page.tsx:479-484 | `MatchesSearch` gives the same answer for a query and its lower-cased form |
| PollsPage.TitleMatchIgnoresCase | src/app/polls/page.tsx:479-484 | the query "PIZZA" matches a poll titled "Best Pizza" |
| PollsPage.StatusFilterExample | src/app/polls/page.tsx:487-489 | of two active polls and one expired poll, filtering by "expired" keeps just the expired one |
| PollsPage.TopOption | src/app/polls/page.tsx:195-198 | for non-empty options, an option with the maximum vote count and no earlier option with as many |
| PollsPage.TopOptionPercentage | src/app/polls/page.tsx:195-203 | the leading option's share of the poll's total, rounded as `calculatePercentage` does; in 0..100 when the poll has votes and the leading count is within the total |
| PollsPage.SumVotesAppend | src/app/polls/page.tsx:538 | the vote sum of two lists concatenated is the sum of their sums |
| PollsPage.FoldVotes | src/app/polls/page.tsx:538 | the `reduce` from an accumulator adds the list's vote sum to it |
| PollsPage.TotalVotes | src/app/polls/page.tsx:538 | the sum of every poll's total votes, non-negative when each is |
| PollsPage.ActivePolls | src/app/polls/page.tsx:539 | the number of active polls, which is the length of the status filter's result and at most the list length |
| PollsPage.AggregatesAppend | src/app/polls/page.tsx:538-539 | both aggregates add up over concatenated lists |
| VoteResult.TopOption | src/components/votes/vote-result.tsx:70-73 | none exactly for no options; else the first option stat with the most votes |
| VoteResult.ExpiryIsPermanent | src/components/votes/vote-result.tsx:75 | `IsExpired` is strict (not yet at the expiry instant), stays true at every later time, and never holds without an expiry |
| VoteResult.HeaderBadges | src/components/votes/vote-result.tsx:135-144 | "Expired" exactly when an expiry is set and before now; "Inactive" exactly when inactive and not expired; never both |
| VoteResult.BadgesExclusive | src/components/votes/vote-result.tsx:75-144 | at most one badge; an active poll shows one only when expired; a badge shows exactly when the poll is inactive or expired |
| VoteResult.InsertPermutes | src/components/votes/vote-result.tsx:222 | inserting adds the element and loses none |
| VoteResult.InsertKeepsOrder | src/components/votes/vote-result.tsx:222 | inserting into a non-increasing list keeps it non-increasing |
| VoteResult.SortByVotes | src/components/votes/vote-result.tsx:221-222 | the reference sort has the input's length and non-increasing votes |
| VoteResult.SortPermutes | src/components/votes/vote-result.tsx:221-222 | the sort is a permutation |
| VoteResult.SortByVotesStable | src/components/votes/vote-result.tsx:221-222 | options with equal votes keep their original relative order |
| VoteResult.InsertIntoPrefix | src/components/votes/vote-result.tsx:222 | one pass inserts `a[i]` into the sorted prefix and leaves the rest of the array alone |
| VoteResult.OpenGap | src/components/votes/vote-result.tsx:222 | shifts the run of smaller-vote entries left of `a[i]` one place right and returns the gap; entries before the gap have at least `a[i]`'s votes, and nothing outside positions gap..i moves |
| VoteResult.SortInPlace | src/components/votes/vote-result.tsx:221-222 | the array afterwards holds the reference sort of its old contents |
| VoteResult.FindIndex | src/components/votes/vote-result.tsx:232-234 | the first position with the id, or -1 exactly when there is none |
| VoteResult.RowColours | src/components/votes/vote-result.tsx:230-235 | each row's colour is `CHART_COLORS[findIndex % 10]` in the sorted array; with distinct ids, row k gets colour k mod 10 |
| VoteResult.InsertKeepsUniqueIds | src/components/votes/vote-result.tsx:222 | inserting an option with a new id keeps ids distinct |
| VoteResult.SortKeepsUniqueIds | src/components/votes/vote-result.tsx:221-222 | sorting keeps option ids distinct |
| VoteResult.ColourRows | src/components/votes/vote-result.tsx:223-236 | the row loop produces exactly the row colours |
| VoteResult.RenderBreakdown | src/components/votes/vote-result.tsx:78-236 | compact variant or no votes: the array is untouched and nothing is rendered; otherwise the array is sorted in place and the rows are coloured from the sorted array |
| VoteResult.ColourFollowsSortedPosition | src/components/votes/vote-result.tsx:221-235 | with distinct ids the k-th row after sorting gets colour k mod 10, so the leading option always gets the first colour |
| PollForm.Added | src/components/polls/poll-form.tsx:107-111 | no change at 10 options; otherwise `{text: '', order: old length}` appended |
| PollForm.Removed | src/components/polls/poll-form.tsx:113-117 | no change at 2 options or fewer; otherwise exactly entry i deleted |
| PollForm.AddedKeepsRows | src/components/polls/poll-form.tsx:107-111 | the old rows are a prefix of the new list, which grows by one below 10 |
| PollForm.RemovedDeletesOne | src/components/polls/poll-form.tsx:113-117 | above 2 options the list shrinks by one; rows before i stay, rows after i shift down by one, in order |
| PollForm.RunStaysInBounds | src/components/polls/poll-form.tsx:107-117 | any sequence of adds and removes keeps a list of 2..10 rows within 2..10 |
| PollForm.DefaultsStayInBounds | src/components/polls/poll-form.tsx:69-72 | starting from the two default rows, the count stays within 2..10 |
| PollForm.ButtonsMatchGuards | src/components/polls/poll-form.tsx:200-216 | add is disabled exactly when adding changes nothing, remove exactly when removing changes nothing |
| PollForm.OptionList.constructor | src/components/polls/poll-form.tsx:66-78 | the initial options, or the two empty default rows |
| PollForm.OptionList.AddOption | src/components/polls/poll-form.tsx:107-111 | the field array becomes `Added` of the old one |
| PollForm.OptionList.RemoveOption | src/components/polls/poll-form.tsx:113-117 | the field array becomes `Removed` of the old one |
| PollForm.DraftOrdersCanRepeat | src/components/polls/poll-form.tsx:107-117 | after a remove, an add can repeat an `order` already in use |
| PollForm.Renumber | src/components/polls/poll-form.tsx:95-98 | texts kept, orders become 0..n-1 in list order |
| PollForm.NonEmpty | src/components/polls/poll-form.tsx:94 | an absent or empty string becomes undefined; any other is kept |
| PollForm.NormalizeSubmit | src/components/polls/poll-form.tsx:91-105 | empty description and expiry become undefined, unset booleans become false, options renumbered with texts kept |
| PollForm.SubmittedOrdersDistinct | src/components/polls/poll-form.tsx:95-98 | submitted orders are strictly increasing |
| PollForm.RenumberIdempotent | src/components/polls/poll-form.tsx:95-98 | renumbering twice is renumbering once |
| Middleware.Decide | src/middleware.ts:32-50 | redirect to login (returnUrl = path) exactly for a protected path without a session; redirect to the dashboard exactly for `/auth…` with a session; continue otherwise |
| Middleware.PrefixesDisjoint | src/middleware.ts:8-33 | no path is both protected and an auth route |
| Middleware.PrefixNotSegment | src/middleware.ts:8-9 | the test is a plain prefix: `/dashboardx` and `/polls/newest` are protected, `/polls` is not |
| Middleware.SessionDecidesRedirectKind | src/middleware.ts:37-50 | a session rules out the login redirect and no session rules out the dashboard redirect; other paths always continue |
| Middleware.MatchedIff | src/middleware.ts:53-57 | `Matched` holds for a path exactly when it starts with `/` and what follows begins with none of `_next`, `auth`, `api`, `favicon.ico` (with `.` matching any character) |
| Middleware.MatchedNeverAuthRoute | src/middleware.ts:44-57 | a matched path is never an auth route, so the dashboard redirect never fires for it |
| Middleware.ExclusionIsPrefix | src/middleware.ts:55 | `/authors`, `/apiary` and `/favicon-ico` are excluded; `/dashboard` is matched |
| ResponsiveComponents.GridColsClass | src/components/ui/responsive-components.tsx:147-162 | empty in autoFit mode; otherwise its tokens are `grid-cols-1` followed by the breakpoint classes for 2..min(cols, maxColumns) |
| ResponsiveComponents.GridClassPresence | src/components/ui/responsive-components.tsx:147-162 | `grid-cols-1` is always present; the class for k columns is present exactly when min(cols, maxColumns) ≥ k |
| ResponsiveComponents.WordsJoin | src/components/ui/responsive-components.tsx:151-161 | the tokens of two strings joined by a space are the tokens of each |
| ResponsiveComponents.GapClass | src/components/ui/responsive-components.tsx:165-168 | empty in autoFit mode; otherwise the named gap's classes, or `gap-3 sm:gap-4 md:gap-6` by default |
| ResponsiveComponents.GapDefaultIsMedium | src/components/ui/responsive-components.tsx:120-168 | the default gap equals the `md` gap; autoFit gives no classes at all |
| ResponsiveComponents.FirstPresent | src/components/ui/responsive-components.tsx:524-526 | `a \|\| b \|\| c`: the first present slot, none exactly when all are absent |
| ResponsiveComponents.ResponsiveContent | src/components/ui/responsive-components.tsx:512-527 | an active device's own slot wins when present (mobile before tablet before desktop); the result is always one of the slots, and none only when all three are absent |
| ResponsiveComponents.ResponsiveContentPreference | src/components/ui/responsive-components.tsx:512-527 | mobile prefers mobile, tablet, desktop; tablet prefers tablet, desktop, mobile; desktop prefers desktop, tablet, mobile; nothing renders only when all slots are absent |
| ResponsiveComponents.OnlyOn | src/components/ui/responsive-components.tsx:495-508 | the children render exactly when the flag holds |
| ResponsiveComponents.ExactlyOneOnlyOn | src/components/ui/responsive-components.tsx:495-508 | at any width exactly one of `OnlyOnMobile`, `OnlyOnTablet` and `OnlyOnDesktop` renders |
| ThemeUtils.GetSystemTheme | src/lib/theme/utils.ts:32-35 | dark without a window; otherwise dark exactly when the user prefers dark |
| ThemeUtils.Resolve | src/lib/theme/utils.ts:46-51 | `system` resolves to the system theme; light and dark stay as they are; the result is never `system` |
| ThemeUtils.RemoveThemeClasses | src/lib/theme/utils.ts:44 | neither `light` nor `dark` remains, and every other class does |
| ThemeUtils.ApplyThemeExactlyOne | src/lib/theme/utils.ts:40-52 | afterwards exactly one of `light` and `dark` is present (the resolved theme), and the other classes are unchanged in order |
| ThemeUtils.ApplyThemeTo | src/lib/theme/utils.ts:40-52 | the new class list is the old one without `light` and `dark`, followed by the class of the resolved theme |
| ThemeUtils.OthersUntouched | src/lib/theme/utils.ts:44-51 | removing the theme classes and adding one keeps every other class, in order |
| ThemeUtils.ApplyThemeIdempotent | src/lib/theme/utils.ts:40-52 | applying the same theme twice for a fixed system preference is applying it once |
| ThemeUtils.DocumentRoot.constructor | src/lib/theme/utils.ts:43 | the root element with the given class list |
| ThemeUtils.DocumentRoot.ApplyTheme | src/lib/theme/utils.ts:40-52 | the class list becomes the old one without `light`/`dark` plus the resolved theme's class |
| ThemeUtils.GetContrastColor | src/lib/theme/utils.ts:57-61 | the light text colour exactly when the background mentions `dark` or `222.2`, the dark one otherwise |
| ThemeUtils.GetThemeColor | src/lib/theme/utils.ts:123-126 | the chosen palette's entry for a known key, the input itself for an unknown key |
| ThemeUtils.PalettesShareKeys | src/lib/theme/utils.ts:123-126 | both palettes know the same keys, so an unknown key is returned as it is in both modes |
| ThemeUtils.ContrastMatchesPalette | src/lib/theme/utils.ts:57-61 | in each mode, the contrast colour of the palette's background is the palette's foreground |
| ThemeUtils.GetSemanticColor | src/lib/theme/utils.ts:131-133 | the dark or light entry of the semantic colour |
| ThemeUtils.SemanticColorsDistinct | src/lib/theme/utils.ts:131-133 | each semantic colour differs between modes, and different semantic colours differ within a mode |
| ThemeUtils.CreateMediaQuery | src/lib/theme/utils.ts:206-208 | `@media (min-width: ` + the breakpoint's threshold in decimal + `px)` |
| ThemeUtils.MediaQueryAgreesWithUseBreakpoint | src/lib/theme/utils.ts:206-208 | the query's width is the one `useBreakpoint` compares against |
| ThemeContext.Toggled | src/contexts/ThemeContext.tsx:50-52 | dark becomes light; light and system become dark |
| ThemeContext.ToggleTwice | src/contexts/ThemeContext.tsx:50-52 | toggling light or dark twice gives it back; system goes to dark, then light |
| ThemeContext.InitialTheme | src/contexts/ThemeContext.tsx:37-39 | the saved theme when there is one, else the system theme |
| ThemeContext.ThemeProvider.constructor | src/contexts/ThemeContext.tsx:31-32 | dark and unmounted, nothing written |
| ThemeContext.ThemeProvider.ApplyAndPersist | src/contexts/ThemeContext.tsx:44-48 | after mount, the theme is applied to the root and written under `poll-app-theme` |
| ThemeContext.ThemeProvider.Mount | src/contexts/ThemeContext.tsx:35-48 | the theme becomes the saved or the system theme, is applied, and is persisted |
| ThemeContext.ThemeProvider.SetTheme | src/contexts/ThemeContext.tsx:44-58 | before mount only the state changes, with no write; after mount a changed theme is applied and persisted, and the synced state is kept |
| ThemeContext.ThemeProvider.ToggleTheme | src/contexts/ThemeContext.tsx:50-52 | the theme becomes its toggle; after mount it is applied and persisted |
| ThemeContext.UseTheme | src/contexts/ThemeContext.tsx:77-88 | outside a provider: dark with no-op actions; inside: the provider's theme |
| ThemeContext.ConsumerView | src/contexts/ThemeContext.tsx:61-69 | before mount the children render outside the context and see the fallback |
| ThemeContext.ToggleAriaLabel | src/contexts/ThemeContext.tsx:150 | the toggle button's label names the theme a press switches to |

## Left out

- Floating point. `calculatePercentage` is modelled on integers with exact half-up rounding; a JavaScript double division can land on the other side of an exact .5 boundary.
- Lower-casing is ASCII only. JavaScript's `toLowerCase` also folds non-ASCII letters, which matters for the slug, the search filter and the error routing.
- `\s` is modelled as JavaScript's whitespace set on single UTF-16 units. Surrogate pairs are not modelled.
- Lengths count characters, while JavaScript's `.length` and `.slice` and Zod's `min`/`max` count UTF-16 code units. Text with characters outside the Basic Multilingual Plane can therefore differ from the source in `truncateText` (`src/lib/utils.ts:55-56`), the login password's `min(6)` (`src/components/auth/login-form.tsx:30`), the register username's 3..20 and password's `min(8)` (`src/components/auth/register-form.tsx:26-28,40`) and the strength meter's `length >= 8` (`src/components/auth/form-components.tsx:398`).
- TextUtils.AdjustOpacity: the opacity is taken as its already rendered decimal string. The number-to-string conversion of the template literal is not modelled.
- `debounce`, `generateId`, `formatDate`, `hexToHsl` and `createGlassEffect` are not part of this model (timers, randomness, locale, floating point).
- The Zod `.email()` check is a boolean input (`emailFormatOk`), because the library's rule is not visible. Zod and react-hook-form internals are not modelled; the schemas are modelled as the first failing rule's message per field.
- The login form's `min(1)` password rule is subsumed by `min(6)` and appears only as the empty password's message.
- The register form's local password-strength helper is identical to the one in `form-components.tsx`, so it is modelled once, as `FormComponents.GetPasswordStrength`.
- PollsPage.TopOptionPercentage: requires non-empty options. On an empty option list the `reduce` is seeded with `poll.options[0]`, which is `undefined`, so it returns `undefined` and reading `topOption.voteCount` throws a TypeError; the card does not render.
- PollsPage.TopOptionPercentage: its range is stated only when the leading count lies within the poll's total. The two numbers come from the database, and nothing in the code relates them.
- PollForm.OptionList.RemoveOption: requires an index within the list. It is only called from an existing row's remove button; react-hook-form's out-of-range `remove` is not modelled.
- The date parsing of `expiresAt` (string → `Date`, invalid dates) is not modelled. Expiry and now are integers in milliseconds, and the poll form keeps only whether an expiry was given.
- The middleware's Supabase session lookup is a boolean input. The redirect URLs are modelled as their target path and `returnUrl`.
- The Next.js matcher is modelled as one prefix-exclusion regex on the path. Next.js's own path normalisation, and line terminators in paths, are not modelled.
- `src/hooks/use-responsive.ts`, which `responsive-components.tsx` imports, is not part of this model. The device flags come from `use-responsive_new.ts`, whose logic it is assumed to share.
- The window-size state updates, resize listeners and touch detection of the responsive hooks are not modelled; the width is an input. `useResponsiveSpacing` and `useResponsiveFontSize` are not modelled.
- ResponsiveComponents.FirstPresent, ResponsiveComponents.ResponsiveContent, ResponsiveComponents.OnlyOn: a slot is either a node or absent, and absent stands for every falsy React node. React renders a falsy number such as `0` as text, so `{isMobile && children}` with `children = 0` shows "0", and `mobile || tablet || desktop` with all three falsy renders the last one; the model says nothing is rendered in both cases.
- Class strings are compared as token lists. `cn`/tailwind-merge de-duplication and the `ResponsiveGrid` markup are not modelled.
- The root element's class list is modelled as an ordered sequence of tokens. DOMTokenList's de-duplication and its rejection of tokens containing spaces are not modelled.
- `applyTheme` without a `document` (a no-op during server rendering) is not modelled.
- The theme is read back from storage as a `ThemeMode`. A foreign string stored under `poll-app-theme`, which the source's unchecked cast would accept, is not modelled.
- `getThemeColor`'s lookup on keys inherited from `Object.prototype` is not modelled.
- React's effect scheduling is modelled as the provider's methods. Mount applies the mount effect, then the apply-and-persist effect; `SetTheme` runs the second effect only when the theme changes.
- `ThemeProvider` methods take the window's colour-scheme preference as a parameter.
- `src/lib/utils.ts` repeats `getSystemTheme`, `applyTheme` and `getContrastColor`; they are modelled once, from `src/lib/theme/utils.ts`. The class-string helpers of `src/lib/utils.ts` (`getButtonStyles`, `getCardStyles` and the like) are fixed tables and are not modelled.
- The legacy `src/lib/theme-utils.ts` duplicate, the theme-toggle animation lock and the remaining markup are not part of this model.
