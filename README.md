# GameDen membership rules in Dafny

GameDen is a single-page admin app for a gaming lounge. Staff use it to register members with a
four-digit card number, to verify a member's phone through a one-time code sent over WhatsApp,
to record plays (every sixth play is free), and to list, search, sort, renew, edit, delete and
export members. An authentication store guards the admin pages. All data lives in two tables
of a hosted record store: `members` and `play_history`.

This project models the rules inside the pages and dialogs:

- the field validators, each regex written as a hand-made recogniser and proved equal to the
  regex read as a split of the string;
- the error maps that `validateForm` builds, and each form's change and submit handlers;
- the random card generator with its retry loop, and the uniqueness of card numbers;
- the play counter and the free-play rule;
- the member list's aggregation, validity badge, search, sort and export, and the local list
  updates after a delete or an edit;
- the OTP dialog's countdown, input clean-up, verify decision and `m:ss` countdown text;
- the session store, and the login dialog's checks and error banner.

The store is the class `Records.Backend`, which holds the two tables as sequences. Faults and
inputs from outside the app are method parameters:

- each write takes a `fault` flag standing for the store's error reply;
- a missing store client is `db == null`;
- each `Math.random()` value is a real `u` with `0 <= u < 1`;
- the columns the store fills in itself (id, created_at, validity defaults) arrive as a `Stamp`;
- a sign-in reply is a `SignInReply` value.

Timestamps are integer milliseconds.

Modules follow the source files:

| module | file |
|---|---|
| `Text` | the JavaScript string operations the app uses |
| `Records` | row types, table filters, the store class |
| `Validators` | the form checks shared by the create and edit forms |
| `WhatsApp` | the phone clean-up before a WhatsApp link |
| `CreateMember` | the create-member page |
| `FreePlay` | the free-play rule and the add-play dialog |
| `MemberList` | what the member list computes |
| `MemberListPage` | the member list's state and actions |
| `EditMember` | the edit dialog |
| `Otp` | the verification dialog |
| `Auth` | the session store |
| `Login` | the login dialog |

Two points about the code that are easy to misread:

- **Validity badge.** An end time one second in the past shows "0 days left" and "expiring":
  `Math.ceil` of a small negative fraction of a day is −0, and only a negative count is expired.
  A badge turns "Expired" only once the end is at least a full day past
  (`MemberList.ValidityBoundaries`).
- **Phone recogniser.** The optional `(91)?` group must backtrack. For example, "9123456789" is
  accepted through the ten-digit mobile part alone. The recogniser tries both readings.

## Model

| member | source | states |
|---|---|---|
| Text.BlankIffAllWs | src/pages/CreateMember.tsx:35-38 | `!value.trim()` holds exactly when every character is JavaScript whitespace |
| Text.DigitsOnlyAppend | src/pages/ViewMembers.tsx:94 | deleting the non-digits commutes with concatenation, so the digits keep their order |
| Text.DigitsOnlyFixesDigits | src/pages/ViewMembers.tsx:94 | `replace(/\D/g, '')` leaves a string unchanged exactly when it is all digits (hence it is idempotent) |
| Text.DecimalRoundTrip | src/pages/CreateMember.tsx:92 | the digits `toString` prints read back as the number |
| Text.DecimalLength | src/pages/CreateMember.tsx:92 | a number with k+1 significant digits prints as exactly k+1 characters |
| Text.IncludesIff | src/pages/ViewMembers.tsx:295-298 | `includes` finds a needle exactly when it occurs at some position |
| Text.IncludesEmpty | src/pages/ViewMembers.tsx:295-298 | every string includes the empty string |
| Text.LexLeTotal | src/pages/ViewMembers.tsx:304-308 | the string order behind `localeCompare` is total |
| Text.LexLeTrans | src/pages/ViewMembers.tsx:304-308 | the string order behind `localeCompare` is transitive |
| Records.ReportedIffHeld | src/pages/CreateMember.tsx:73-83 | while card numbers are unique, a `maybeSingle()` card lookup reports a row exactly when some row holds the card |
| Records.CardHoldersAtMostOne | src/pages/CreateMember.tsx:76-80 | with unique card numbers, at most one row matches a card lookup |
| Records.AppendKeepsUnique | src/pages/CreateMember.tsx:230-233 | inserting a row whose card nobody holds keeps card numbers unique |
| Records.UpdateKeepsUnique | src/components/EditMemberModal.tsx:114-120 | updating one member to a card no other member holds keeps card numbers unique |
| Records.NewMember | src/pages/CreateMember.tsx:231-233 | the inserted row carries the form's four fields and the store's id, creation time and validity window |
| Records.PlaysOf | src/pages/ViewMembers.tsx:64 | the member's plays: exactly the rows with that `member_id` |
| Records.PlaysOfConcat | src/pages/ViewMembers.tsx:64 | the member filter distributes over concatenation, so it keeps table order and multiplicity |
| Records.PlaysOfAppend | src/components/AddPlayModal.tsx:79-85 | a new play joins the end of its member's plays and changes no other member's plays |
| Records.PlaysWithout | src/pages/ViewMembers.tsx:182-185 | after deleting a member's plays, exactly the other members' plays remain |
| Records.PlaysWithoutAppend | src/pages/ViewMembers.tsx:182-185 | the delete of plays distributes over concatenation, so the remaining plays keep their order and multiplicity |
| Records.MembersWithout | src/pages/ViewMembers.tsx:190-193 | after deleting by id, exactly the rows with other ids remain |
| Records.MembersWithoutAppend | src/pages/ViewMembers.tsx:190-193 | the delete of a member distributes over concatenation, so the remaining rows keep their order and multiplicity |
| Records.MembersUpdated | src/components/EditMemberModal.tsx:115-118 | the update changes the four fields of the rows with that id and nothing else |
| Records.MembersRenewed | src/pages/ViewMembers.tsx:140-146 | the renewal sets the validity window of the rows with that id and nothing else |
| Records.RenewKeepsInvariants | src/pages/ViewMembers.tsx:140-146 | a renewal keeps card numbers unique, ids unique and every play owned by a member, since it touches only the validity window |
| Records.IndexOfId | src/components/EditMemberModal.tsx:115-120 | the position of the first row with the id, or none when no row has it |
| Records.DeleteKeepsReferenced | src/pages/ViewMembers.tsx:181-195 | deleting the plays first, then the member, leaves no play without its member |
| Records.AddPlayKeepsReferenced | src/components/AddPlayModal.tsx:79-85 | a play for an existing member keeps every play owned by a member |
| Records.Backend.InsertMember | src/pages/CreateMember.tsx:231-235 | a successful insert appends the row; a fault changes nothing; plays untouched |
| Records.Backend.UpdateMember | src/components/EditMemberModal.tsx:115-122 | the update applies to the rows with that id; the returned row is the updated row, or none on a fault or a missing id |
| Records.Backend.RenewMember | src/pages/ViewMembers.tsx:140-148 | a successful update sets that member's validity window; a fault changes nothing |
| Records.Backend.DeleteMember | src/pages/ViewMembers.tsx:190-195 | a successful delete removes the rows with that id; a fault changes nothing |
| Records.Backend.InsertPlay | src/components/AddPlayModal.tsx:79-87 | a successful insert appends exactly one play; members untouched |
| Records.Backend.DeletePlaysOf | src/pages/ViewMembers.tsx:182-187 | a successful delete removes exactly that member's plays; members untouched |
| Validators.FullNameError | src/pages/CreateMember.tsx:35-38 | "Full name is required" exactly when the name is blank, otherwise no error |
| Validators.CardNumberError | src/pages/CreateMember.tsx:40-46 | "required" exactly when blank; "must be exactly 4 digits" exactly when not blank and not four ASCII digits (untrimmed); no error exactly for four digits |
| Validators.PhoneError | src/pages/CreateMember.tsx:48-54 | "required" exactly when blank; the format message exactly when not blank and rejected by the Indian-phone regex; no error exactly when the regex accepts |
| Validators.EmailError | src/pages/CreateMember.tsx:56-62 | "required" exactly when blank; the format message exactly when not blank and rejected by the e-mail regex; no error exactly when it accepts |
| Validators.RequiredIffBlank | src/pages/CreateMember.tsx:35-62 | each of the four "required" messages appears exactly when `!value.trim()` holds for its field |
| Validators.PhoneFormatIsRegex | src/pages/CreateMember.tsx:51 | the recogniser accepts exactly the strings `^(\+91[\-\s]?)?[0]?(91)?[6789]\d{9}$` matches |
| Validators.EmailFormatIsRegex | src/pages/CreateMember.tsx:59 | the recogniser accepts exactly the strings `^[^\s@]+@[^\s@]+\.[^\s@]+$` matches: one `@`, no whitespace, a non-empty local part, a domain with an inner dot |
| Validators.PhoneAccepted | src/pages/CreateMember.tsx:51 | "9876543210", "+91 9876543210", "09876543210" and "919876543210" pass |
| Validators.PhoneRejected | src/pages/CreateMember.tsx:51 | "1234567890" and "98765432" fail |
| Validators.CardExamples | src/pages/CreateMember.tsx:40-46 | "1234" passes and " 123" fails on format |
| Validators.FormValidIffNoError | src/pages/CreateMember.tsx:31-63 | all four fields pass exactly when none of the four checks reports a message |
| Validators.Collect | src/pages/CreateMember.tsx:31-63 | the map built one failed check at a time records exactly the reported messages; valid exactly when no check reported one |
| Validators.SetField | src/pages/CreateMember.tsx:130 | `{...prev, [name]: value}` changes the named field and no other |
| Validators.CheckFields | src/pages/CreateMember.tsx:31-63 | the error map holds exactly the fields whose check fails, each with its check's message; valid exactly when the map is empty and exactly when all four fields pass |
| WhatsApp.WhatsAppNumber | src/pages/ViewMembers.tsx:93-96 | the result is all digits and starts with "91"; it is the input's digits, with "91" put in front unless they already start with "91" |
| WhatsApp.WhatsAppNumberIdempotent | src/pages/ViewMembers.tsx:93-96 | normalising a normalised number changes nothing |
| WhatsApp.TrunkZeroKept | src/pages/ViewMembers.tsx:93-96 | a leading trunk 0 is kept: an all-digit number starting with 0 gets "91" put in front of the 0 |
| CreateMember.CardCode | src/pages/CreateMember.tsx:92 | a generated code lies in [1000, 9999] |
| CreateMember.CardText | src/pages/CreateMember.tsx:92 | the generated code's text is four digits that pass the card check and read back as the code |
| CreateMember.CardExists | src/pages/CreateMember.tsx:73-83 | false without a store client; while card numbers are unique, true exactly when some row holds the card |
| CreateMember.FirstFree | src/pages/CreateMember.tsx:91-94 | the loop's outcome: none exactly when every draw's card is reported taken, otherwise the card of the first draw not reported, which passes the card check |
| CreateMember.DrawCardNumber | src/pages/CreateMember.tsx:88-94 | the do-while loop over the draws returns exactly FirstFree's card |
| CreateMember.CreateMemberPage.constructor | src/pages/CreateMember.tsx:19-29 | the page starts with four empty fields, no errors, an unverified phone and the OTP dialog closed |
| CreateMember.CreateMemberPage.ValidateForm | src/pages/CreateMember.tsx:31-71 | valid exactly when all fields pass and the phone is verified, exactly when the map is empty; an unverified phone always carries "Phone number must be verified" |
| CreateMember.CreateMemberPage.HandleChange | src/pages/CreateMember.tsx:128-159 | the field takes the value and loses its error, a phone edit drops the verification; a four-character card the lookup reports gets "already in use", which, while card numbers are unique, is exactly when some row holds it |
| CreateMember.CreateMemberPage.HandleVerifyPhone | src/pages/CreateMember.tsx:107-119 | the phone's error is set when its check fails; otherwise the OTP dialog opens |
| CreateMember.CreateMemberPage.HandleOtpVerified | src/pages/CreateMember.tsx:121-126 | the phone becomes verified, the dialog closes, the phone error is cleared |
| CreateMember.CreateMemberPage.GenerateRandomCardNumber | src/pages/CreateMember.tsx:85-105 | a found card replaces the field and clears its error; it passes the card check and the lookup misses it, so, while card numbers are unique, no row holds it |
| CreateMember.CreateMemberPage.HandleSubmit | src/pages/CreateMember.tsx:207-245 | one row is inserted exactly when the form is valid and verified, a client exists, the final lookup misses and the insert succeeds; otherwise the tables are unchanged; an invalid or unverified form leaves exactly validateForm's error map, with the verification message on an unverified phone; card uniqueness is preserved; the WhatsApp number is returned |
| FreePlay.NextIsFreeIff | src/components/AddPlayModal.tsx:55-59 | the next play is free exactly when the count is 5 modulo 6 |
| FreePlay.UntilFree | src/components/AddPlayModal.tsx:134-137 | `6 - ((count + 1) % 6)` lies in 1..6 and is 6 exactly when the next play is free |
| FreePlay.UntilFreeIsDistance | src/components/AddPlayModal.tsx:134-137 | when the next play is not free, the value lies in 1..5 and is exactly the number of plays until the next free one |
| FreePlay.OneFreeInSix | src/components/AddPlayModal.tsx:55-59 | exactly one play in any six consecutive ones is free |
| FreePlay.FreePlaysAvailable | src/pages/ViewMembers.tsx:251 | the export's free-play column is the whole number of sixes in the play count |
| FreePlay.FreeCountIsAvailable | src/components/AddPlayModal.tsx:56-58 | plays recorded one at a time under the rule carry exactly `n / 6` free flags, the export's column |
| FreePlay.ListHint | src/pages/ViewMembers.tsx:483-492 | "Free Play!" exactly when the next play is free; otherwise, for a positive count, the plays left (1..5) to the next free play; nothing for a count of 0 |
| FreePlay.DialogHint | src/components/AddPlayModal.tsx:125-137 | the free banner exactly when the flag is set; otherwise the plays-left line for a positive count, and nothing for a count of 0 |
| FreePlay.DialogAgreesWithList | src/components/AddPlayModal.tsx:125-137 | after a fetch, the dialog and the member list show the same hint |
| FreePlay.AddPlayModal.constructor | src/components/AddPlayModal.tsx:22-23 | the dialog opens for its member with a play count of 0 and the free flag down |
| FreePlay.AddPlayModal.FetchPlayCount | src/components/AddPlayModal.tsx:41-63 | the count becomes the number of the member's plays; the flag is raised when the next play is free and never lowered |
| FreePlay.AddPlayModal.HandleSubmit | src/components/AddPlayModal.tsx:65-97 | exactly one play row is appended, with the member's id and the dialog's flag; no other member's plays change; flags that followed the rule still do; every play keeps its member |
| MemberList.LatestPlay | src/pages/ViewMembers.tsx:65-67 | none exactly when there are no plays, otherwise the maximum play date of them |
| MemberList.Aggregate | src/pages/ViewMembers.tsx:63-74 | one entry per member in order, carrying the number of its plays and its latest play date |
| MemberList.CeilDiv | src/pages/ViewMembers.tsx:210 | `Math.ceil(a / b)`: the least integer q with a <= b·q |
| MemberList.ValidityStatus | src/pages/ViewMembers.tsx:207-219 | exactly one badge: expired iff the end is at least a day past, expiring iff within (−1 day, 30 days], active beyond; the days are the rounded-up days left |
| MemberList.ValidityStatusMonotone | src/pages/ViewMembers.tsx:207-219 | as time passes the badge only worsens and the days left never grow |
| MemberList.ValidityBoundaries | src/pages/ViewMembers.tsx:210-217 | one second past shows expiring with 0 days; a day past is expired; 30 days is expiring; 31 days is active |
| MemberList.StatusText | src/pages/ViewMembers.tsx:212-217 | the badge text is "Expired" exactly for an expired badge, and "N days left" with the rounded-up days otherwise |
| MemberList.ExportHeaderColumns | src/pages/ViewMembers.tsx:242-253 | the sheet has ten distinct column names, from "Card Number" to "Member Since", in the order of the row fields |
| MemberList.Export | src/pages/ViewMembers.tsx:229-253 | an empty list is refused; otherwise one row per member in order, each column taken from its member: card, name, phone, e-mail, validity start and end, the badge text, play count, free plays `floor(count / 6)` and creation time; the status is "Expired" exactly for expired members |
| MemberList.ExportFreePlaysAreFlagged | src/pages/ViewMembers.tsx:251 | for plays recorded under the rule, the exported free plays equal the plays stored as free |
| MemberList.Filter | src/pages/ViewMembers.tsx:292-299 | the result holds exactly the listed members the term matches: name or e-mail ignoring case, card or phone as typed |
| MemberList.FilterEmptyTerm | src/pages/ViewMembers.tsx:292-299 | an empty search keeps every member, in order |
| MemberList.FilterIdempotent | src/pages/ViewMembers.tsx:292-299 | searching the result again for the same term changes nothing |
| MemberList.FilterAppend | src/pages/ViewMembers.tsx:292 | the filter works element by element, so it keeps the list's order |
| MemberList.InOrderTotal | src/pages/ViewMembers.tsx:300-311 | the comparator orders any two members one way or the other |
| MemberList.InOrderTrans | src/pages/ViewMembers.tsx:300-311 | the comparator's order is transitive in both directions |
| MemberList.Insert | src/pages/ViewMembers.tsx:300-311 | inserting into a sorted list keeps it sorted and adds exactly that member |
| MemberList.SortList | src/pages/ViewMembers.tsx:300-311 | the sort yields a rearrangement of its input sorted by the field in the chosen direction |
| MemberList.Displayed | src/pages/ViewMembers.tsx:292-311 | the rows shown are a rearrangement of the filtered list, each match as often as listed, in column order, and never more than the list |
| MemberList.SortAfterClick | src/pages/ViewMembers.tsx:164-171 | the clicked field becomes the sort field; the same field flips the direction, another one starts ascending |
| MemberList.SortClickTwice | src/pages/ViewMembers.tsx:164-171 | clicking the same heading twice restores the order |
| MemberList.ApplyEdit | src/pages/ViewMembers.tsx:555-556 | only entries with the saved id take the saved row; every entry keeps its play count and last play |
| MemberList.EditPatchIsRefetch | src/pages/ViewMembers.tsx:555-556 | with unique ids, patching the list with the updated row equals aggregating the updated table |
| MemberList.ListedWithout | src/pages/ViewMembers.tsx:198 | after a delete, exactly the entries with other ids remain |
| MemberList.ListedWithoutAppend | src/pages/ViewMembers.tsx:198 | the delete patch distributes over concatenation, so the remaining entries keep their order |
| MemberListPage.MemberListPage.constructor | src/pages/ViewMembers.tsx:14-24 | the page starts with an empty list, an empty search, sorted by name ascending, with no confirmation pending |
| MemberListPage.MemberListPage.Shown | src/pages/ViewMembers.tsx:292-311 | the rows on screen are a rearrangement of the listed members the search matches, sorted by the chosen field and direction |
| MemberListPage.MemberListPage.Sheet | src/pages/ViewMembers.tsx:229-253 | the export covers the whole list, not the search result: refused exactly for an empty list, otherwise one row per listed member, in order |
| MemberListPage.MemberListPage.FetchMembers | src/pages/ViewMembers.tsx:32-83 | the list becomes the aggregation of both tables; a failed read leaves it as it was |
| MemberListPage.MemberListPage.HandleSort | src/pages/ViewMembers.tsx:164-171 | the sort state moves as SortAfterClick says |
| MemberListPage.MemberListPage.HandleSearchChange | src/pages/ViewMembers.tsx:173-175 | the search term becomes the typed value; the export sheet does not change |
| MemberListPage.MemberListPage.AskDelete | src/pages/ViewMembers.tsx:533 | the member awaits the delete confirmation |
| MemberListPage.MemberListPage.AskReset | src/pages/ViewMembers.tsx:519 | the member awaits the renewal confirmation |
| MemberListPage.MemberListPage.HandleDeleteMember | src/pages/ViewMembers.tsx:177-205 | plays go first and the member only if that succeeded; only full success removes the list entry; every remaining play keeps its member |
| MemberListPage.MemberListPage.HandleResetValidity | src/pages/ViewMembers.tsx:132-162 | a successful renewal sets the window to [now, six months later], returns the member's WhatsApp number and refetches the list; a fault changes nothing; unique cards, unique ids and play owners are preserved |
| MemberListPage.MemberListPage.OnEditSaved | src/pages/ViewMembers.tsx:555-556 | the list is patched as ApplyEdit says |
| EditMember.EditMemberModal.constructor | src/components/EditMemberModal.tsx:15-20 | the form starts with the member's four editable fields and no errors |
| EditMember.EditMemberModal.ValidateForm | src/components/EditMemberModal.tsx:36-71 | the four field checks with no verification requirement; valid exactly when the map is empty |
| EditMember.EditMemberModal.HandleChange | src/components/EditMemberModal.tsx:73-81 | the field takes the value and only its error is cleared |
| EditMember.EditMemberModal.CardTaken | src/components/EditMemberModal.tsx:95-111 | while card numbers are unique, the `.neq('id')` lookup blocks the update exactly when the card changed and another member holds it |
| EditMember.EditMemberModal.HandleSubmit | src/components/EditMemberModal.tsx:83-135 | an invalid form writes nothing and leaves exactly the field checks' error map; a changed card the `.neq('id')` lookup reports sets "already registered" and writes nothing, which, while card numbers are unique, is exactly when another member holds it; otherwise the row is updated, and the saved record is the store's updated row with the original creation time, so it has the form's fields and the id; card uniqueness is preserved |
| EditMember.EditMemberModal.UpdateSafe | src/components/EditMemberModal.tsx:95-111 | when the update goes ahead, no other member holds the card, so uniqueness survives |
| Otp.OtpCode | src/components/OTPVerification.tsx:32 | a generated code lies in [100000, 999999] |
| Otp.OtpText | src/components/OTPVerification.tsx:32 | the code's text is exactly six digits that read back as the code |
| Otp.Sanitize | src/components/OTPVerification.tsx:152 | at most six digits, a prefix of the input's digits in order, all of them when fewer than six |
| Otp.SanitizeIdempotent | src/components/OTPVerification.tsx:152 | cleaning a cleaned entry changes nothing |
| Otp.SanitizeKeepsCode | src/components/OTPVerification.tsx:152 | a generated code passes the clean-up unchanged |
| Otp.TwoDigits | src/components/OTPVerification.tsx:89 | `padStart(2, '0')` of the seconds gives two digits |
| Otp.FormatTimeRoundTrip | src/components/OTPVerification.tsx:86-90 | reading "m:ss" back gives m·60 + ss, the seconds formatted |
| Otp.ExpiresAfterFiveMinutes | src/components/OTPVerification.tsx:15 | a fresh countdown reads 300 − t after t ticks and reaches zero exactly after 300 |
| Otp.OtpVerification.constructor | src/components/OTPVerification.tsx:12-20 | mounting generates a code, with a full countdown and an empty entry |
| Otp.OtpVerification.GenerateOtp | src/components/OTPVerification.tsx:31-38 | a new code, 300 seconds, not expired, empty entry |
| Otp.OtpVerification.Tick | src/components/OTPVerification.tsx:22-29 | the time drops by one while positive and never below zero; expired exactly at zero |
| Otp.OtpVerification.OnInput | src/components/OTPVerification.tsx:152 | the entry becomes the cleaned input |
| Otp.OtpVerification.VerifyEnabled | src/components/OTPVerification.tsx:181 | an enabled Verify button has a non-blank entry and time left |
| Otp.OtpVerification.EnabledPassesChecks | src/components/OTPVerification.tsx:181 | an enabled Verify button never meets the empty-entry or expiry refusal |
| Otp.OtpVerification.HandleVerify | src/components/OTPVerification.tsx:59-84 | refused when blank, then when expired; verified exactly when neither and the entry equals the code |
| Auth.Outcome | src/store/authStore.ts:19-68 | success exactly for a reply with a user and no error; "Email not confirmed" and "Invalid login credentials" map to their own texts and error types; other errors pass their message with no type, and an empty message becomes "Login failed. Please check your credentials."; no error and no user gives "Login failed. No user data received."; a throw passes an Error's message, otherwise "An unexpected error occurred during login." |
| Auth.AuthStore.constructor | src/store/authStore.ts:14-17 | no user, not authenticated, not loading |
| Auth.AuthStore.Login | src/store/authStore.ts:19-68 | the session changes only on success, to the reply's user; authenticated exactly when a user is set |
| Auth.AuthStore.Logout | src/store/authStore.ts:70-77 | the session is cleared unless sign-out threw |
| Auth.AuthStore.SetUser | src/store/authStore.ts:79-81 | the user is set, authenticated exactly when there is one, loading off |
| Auth.AuthStore.SetLoading | src/store/authStore.ts:83-85 | only the loading flag changes |
| Login.GeneralText | src/components/LoginModal.tsx:85 | `result.error || 'Login failed'`: never empty, the result's message when it has one |
| Login.ShownBanner | src/components/LoginModal.tsx:103-153 | no banner without a message; the confirmation banner exactly for an unconfirmed e-mail; otherwise the failure banner, with the admin hint exactly for bad credentials |
| Login.BannerForReply | src/components/LoginModal.tsx:103-153 | a failed sign-in always shows a banner: the confirmation steps exactly for "Email not confirmed", the admin hint exactly for "Invalid login credentials" |
| Login.LoginModal.constructor | src/components/LoginModal.tsx:14-19 | the dialog starts with empty fields and no errors |
| Login.LoginModal.ValidateForm | src/components/LoginModal.tsx:26-45 | valid exactly when the e-mail passes the member-form check and the password is not blank; the general message is dropped |
| Login.LoginModal.HandleChange | src/components/LoginModal.tsx:47-59 | the field takes the value and loses its error; a general message is cleared with its type |
| Login.LoginModal.HandleSubmit | src/components/LoginModal.tsx:61-101 | without a connection nothing changes; otherwise the field errors hold validateForm's result, and invalid fields stop there with no general message; the dialog closes exactly on success, with the general message cleared; a failure leaves its message and type |

## Left out

- Network calls to the record store and the authentication service. Each reply is a parameter; the query builders are not modelled.
- Server-side ordering (`order('created_at')`, `order('play_date')`). The model keeps table order; the aggregation does not depend on the order of plays.
- Exceptions thrown by card lookups (the catch blocks at src/pages/CreateMember.tsx:99-101 and 153-155). The model's lookup always answers.
- Races between staff sessions between a lookup and the write that follows it.
- React render timing: each handler runs against the current state, whereas the source's closures read the state of the last render.
- The spinner flags (`isLoading`, `isCheckingCard`, `isExporting`), toasts, `onClose` and the Escape-key handlers.
- CreateMember.DrawCardNumber: the source retries without bound; the model takes a finite list of draws and gives up when every draw is taken.
- Floating point: `Math.random()` values are exact reals.
- Dates: `new Date(...)` parsing, `toISOString`, `toLocaleDateString`, time zones and the `setMonth(+6)` arithmetic. Timestamps are integers, the renewal's end is passed in, and the export's date columns hold raw timestamps.
- MemberList.Export: every row uses one `now`, whereas the source reads the clock once per row.
- Unicode case folding and collation. `toLowerCase` is modelled on ASCII letters only, and `localeCompare` as code-point order.
- String lengths (`value.length`) count code points here, not UTF-16 units.
- MemberList.SortList: the stability of `Array.prototype.sort` is not proved.
- Records.Backend.UpdateMember: it returns the first row with the id, where `.single()` would fail if several rows matched. Ids are the table's primary key, so this cannot happen.
- The WhatsApp message texts, `encodeURIComponent`, `window.open`, and the OTP message's minutes.
- The XLSX workbook, column widths and file name.
- The input's `maxLength` attribute.
- The `catch` of the login dialog's submit (src/components/LoginModal.tsx:93-97). It is unreachable because `login` catches everything itself.
- `isSupabaseConnected` reads environment variables; it is a parameter.
- The session listener in src/context/SupabaseContext.tsx is not part of this model.
- The add-play dialog's date and time inputs: the combined play time is a parameter.
- The play-count number shown in the list and the dialog is `play_count + 1`, the number of the play about to be recorded. It is rendering only, and is not a member of its own.
- Otp.OtpVerification.Tick: the source arms no timer at zero, so a tick at zero is modelled as doing nothing.
