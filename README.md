# MediSync web front end: demo-request form and support chat, in Dafny

This project models the two stateful parts of the MediSync marketing site.

- **The demo-request modal** (`DemoModal`):
  - a form with five inputs (full name, email, phone, plan, message);
  - a field validator that checks each value as it is typed and again on submit;
  - a submission lifecycle: validate, mark as loading, insert the row, reset or keep the form, and close the modal after a 2-second delay.
- **The support chat widget** (`ChatWidget`):
  - an append-only log that starts with a greeting from the bot;
  - an input buffer that is sent on the send button or on Enter without Shift;
  - one canned reply from the bot, one second after each accepted message;
  - an open/closed panel.

Files:

- `js_text.dfy` (module `JsText`): the JavaScript string primitives the components use.
  - `trim`, with ECMAScript's whitespace set;
  - `\s` and `\d`;
  - `String.prototype.length`, which counts UTF-16 code units.
- `validation.dfy` (module `Validation`): `validateField`, written as functions.
  - Each regular expression becomes a character-level matcher, paired with a reference definition of the language the pattern describes. A lemma proves the two agree.
  - Each field's rule is then stated against the reference definitions.
- `demo_modal.dfy` (module `DemoForm`): the modal's state hooks as the class `DemoModal`.
  - `handleSubmit` is split at its `await` into `Submit` and `Settle`.
  - The close timer is a counter plus a step method.
  - A global invariant covers every reachable state: every row sent passed all four validators, `success` is never shown while loading, and each sent row is either awaiting its outcome, waiting for its close timer, or has closed the modal.
- `chat_widget.dfy` (module `Chat`): the widget's state as the class `ChatWidget`, with an invariant on the log.
  - The log begins with the greeting.
  - No visitor entry is blank.
  - Every later bot entry is the canned reply.
  - Every visitor entry has its reply delivered or pending.
  - Every method keeps the old log as a prefix.

## Model

| member | source | states |
|---|---|---|
| JsText.TrimStartSpec | src/components/ui/DemoModal.tsx:36 | the leading part `trim` removes is all whitespace, what remains is a suffix of the input, and it does not start with whitespace |
| JsText.TrimEndSpec | src/components/ui/DemoModal.tsx:36 | the trailing part removed is all whitespace, what remains is a prefix, and it does not end with whitespace |
| JsText.TrimSpec | src/components/ui/DemoModal.tsx:36 | `trim` returns a slice of the input with only whitespace cut from both ends; the slice neither starts nor ends with whitespace; it is empty (falsy) exactly when the input is empty or all whitespace |
| JsText.Utf16LengthBounds | src/components/ui/DemoModal.tsx:49 | `.length` lies between the number of characters and twice that, and equals it exactly when every character is in the Basic Multilingual Plane |
| Validation.IndexOfSpec | src/components/ui/DemoModal.tsx:40 | the position found is the first `@`, and equals the length exactly when there is none |
| Validation.EmailMatcherCorrect | src/components/ui/DemoModal.tsx:40 | the character-level check accepts exactly the strings of the form L@D.T with L, D, T non-empty and free of whitespace and `@` |
| Validation.EmailMatcherSound | src/components/ui/DemoModal.tsx:40 | everything the character-level check accepts splits as L@D.T |
| Validation.EmailMatcherComplete | src/components/ui/DemoModal.tsx:40 | every L@D.T split passes the character-level check |
| Validation.DigitsMatcherCorrect | src/components/ui/DemoModal.tsx:45 | `^\d{n}$` matches exactly the strings of n ASCII digits |
| Validation.ValidateField | src/components/ui/DemoModal.tsx:32-56 | a field without a rule (the plan selection, via `default`) is always accepted |
| Validation.NameRule | src/components/ui/DemoModal.tsx:35-37 | the name error is "Full Name is required" exactly when the value is empty or all whitespace, and "" otherwise |
| Validation.EmailRule | src/components/ui/DemoModal.tsx:38-42 | blank gives "Email is required"; otherwise "" when the value splits as L@D.T and "Enter a valid email address" when it does not; "" exactly when it splits |
| Validation.PhoneRule | src/components/ui/DemoModal.tsx:43-47 | blank gives "Phone number is required", and the required check comes first; otherwise "" for exactly ten ASCII digits and "Enter a valid 10-digit phone number" for anything else |
| Validation.MessageRule | src/components/ui/DemoModal.tsx:48-51 | the message is accepted exactly when its length is at most 300, and rejected only with "Message should not exceed 300 characters" |
| Validation.MessageRuleInCharacters | src/components/ui/DemoModal.tsx:48-51 | counted in characters: more than 300 are always rejected, at most 150 always accepted, and for text in the Basic Multilingual Plane the bound is exactly 300 |
| Validation.NoDotAfterAtUnmatched | src/components/ui/DemoModal.tsx:40 | with no `.` after the first `@` (in particular with no `@`), the email pattern does not match |
| Validation.EmailWithoutAtOrDotRejected | src/components/ui/DemoModal.tsx:38-42 | an email with no `.` after its first `@` always gets an error |
| Validation.PhoneNotTenDigitsRejected | src/components/ui/DemoModal.tsx:43-47 | a phone value that is not exactly ten ASCII digits always gets an error |
| Validation.SplitEmailAccepted | src/components/ui/DemoModal.tsx:38-42 | every L@D.T value is accepted |
| Validation.BlankNameRequired | src/components/ui/DemoModal.tsx:35-37 | "" and "   " are both reported as a missing name |
| Validation.TypicalEmailAccepted | src/components/ui/DemoModal.tsx:38-42 | "jane@example.com" is accepted |
| Validation.DottedDomainAccepted | src/components/ui/DemoModal.tsx:38-42 | "a.b@mail.example.org" is accepted, so dots may also appear in the local part and the domain |
| Validation.EmailWithoutDomainDotRejected | src/components/ui/DemoModal.tsx:38-42 | "jane@example" gets "Enter a valid email address" |
| Validation.PhoneWithSeparatorsRejected | src/components/ui/DemoModal.tsx:43-47 | "555-123-4567" gets "Enter a valid 10-digit phone number" |
| Validation.PhoneWithLeadingSpaceRejected | src/components/ui/DemoModal.tsx:43-47 | " 5551234567" is rejected, because the pattern runs on the value as typed, not on its trim |
| Validation.TenDigitPhoneAccepted | src/components/ui/DemoModal.tsx:43-47 | "5551234567" is accepted |
| Validation.MessageLengthBoundary | src/components/ui/DemoModal.tsx:48-51 | 300 characters are accepted and 301 are rejected |
| DemoForm.Form.With | src/components/ui/DemoModal.tsx:60 | `{ ...formData, [name]: value }` sets that one value and leaves the other four alone |
| DemoForm.Errors.With | src/components/ui/DemoModal.tsx:63 | `{ ...prevErrors, [name]: e }` sets that field's message and leaves every other message alone |
| DemoForm.SubmitProceedsIff | src/components/ui/DemoModal.tsx:69-81 | `handleSubmit` proceeds past its abort test exactly when the name is not blank, the email splits as L@D.T, the phone is ten digits and the message is at most 300 long; `handleSubmit` does not look at the plan (the browser's own form checks, which run before it, are not modelled) |
| DemoForm.DemoModal.constructor | src/components/ui/DemoModal.tsx:12-29 | all five values empty, no messages, not loading, no confirmation, nothing sent or scheduled |
| DemoForm.DemoModal.Change | src/components/ui/DemoModal.tsx:58-64 | the changed field takes the new value and its own fresh validation message; every other value and message is unchanged, and so are loading, success, the sent rows and the timers |
| DemoForm.DemoModal.Submit | src/components/ui/DemoModal.tsx:66-95 | while loading (submit disabled, line 212) nothing changes. Otherwise the errors become exactly the recomputed four. If any message is set, nothing else changes. If none is, loading becomes true, success false, and exactly one row equal to the current form is sent. The invariant is kept |
| DemoForm.DemoModal.Settle | src/components/ui/DemoModal.tsx:97-109 | after the insert answers, loading is false. On success the confirmation shows and the form resets; on failure the form is kept and there is no confirmation. Either way one close timer is scheduled and the errors are unchanged |
| DemoForm.DemoModal.CloseDelayElapsed | src/components/ui/DemoModal.tsx:106-109 | a close timer fires: the confirmation is hidden and `onClose` is called once |
| DemoForm.FillAndSubmit | src/components/ui/DemoModal.tsx:58-95 | a fresh modal, filled field by field and submitted, holds the form and its recomputed errors; it is loading with exactly that row sent when no error is set, and has sent nothing otherwise |
| DemoForm.SubmitAcceptable | src/components/ui/DemoModal.tsx:66-110 | once `handleSubmit` runs, an acceptable form is sent as one unchanged row; the form is reset after a successful insert and kept after a failed one; after the delay `onClose` has been called once and no confirmation shows |
| DemoForm.SubmitRejected | src/components/ui/DemoModal.tsx:69-81 | once `handleSubmit` runs, a form some validator rejects is not sent, its values stay, loading stays false, and the errors are the recomputed ones with at least one set |
| Chat.CountsAppend | src/components/ChatWidget.tsx:14 | visitor and bot entry counts add up over a concatenation of logs |
| Chat.CountsPartition | src/components/ChatWidget.tsx:8 | every entry is written either by the visitor or by the bot |
| Chat.SendDisabled | src/components/ChatWidget.tsx:80 | the send button is disabled exactly when the buffer is empty or all whitespace |
| Chat.ChatWidget.constructor | src/components/ChatWidget.tsx:6-10 | panel closed, empty buffer, the log is exactly the greeting from the bot, no reply pending |
| Chat.ChatWidget.SetInput | src/components/ChatWidget.tsx:73 | the buffer takes the typed value; the log, the panel and the pending replies are unchanged |
| Chat.ChatWidget.Send | src/components/ChatWidget.tsx:12-28 | a blank buffer changes nothing and schedules nothing. Otherwise exactly one visitor entry with the untrimmed text is appended after the unchanged old log, the buffer is cleared, and one reply is scheduled. The invariant is kept |
| Chat.ChatWidget.KeyDown | src/components/ChatWidget.tsx:30-35 | Enter without Shift acts as a send; every other key, and Shift+Enter, changes nothing |
| Chat.ChatWidget.DeliverReply | src/components/ChatWidget.tsx:18-26 | a pending reply is appended after whatever the log then holds, and one fewer reply is pending |
| Chat.ChatWidget.ToggleOpen | src/components/ChatWidget.tsx:95 | the launcher flips the panel and touches neither the log nor the buffer |
| Chat.ChatWidget.CloseChat | src/components/ChatWidget.tsx:49 | the close button closes the panel and touches neither the log nor the buffer |
| Chat.RepliesBalance | src/components/ChatWidget.tsx:14-26 | with replies pending balanced against visitor entries, the log's length is fixed by them: twice the visitor entries plus one equals the length plus the replies pending (so the bot has exactly one entry more once nothing is pending) |
| Chat.SendOnceAndReply | src/components/ChatWidget.tsx:8-26 | a fresh widget, one non-blank message sent with Enter and its reply delivered: the log is the greeting, the message as typed, then the reply |
| Chat.NothingSent | src/components/ChatWidget.tsx:13 | Shift+Enter and a whitespace-only send leave the fresh log as the greeting alone, with nothing scheduled |

## Left out

- The insert into the hosted `demo_requests` table is a network call into a client library that is not part of this model. `Submit` records the row it hands over, and `Settle` takes the outcome (row stored or error thrown) as a boolean.
- `console.log` and `console.error` are output only.
- `e.preventDefault()` is browser plumbing.
- Timers are modelled as counters of scheduled callbacks plus step methods that fire one (`CloseDelayElapsed`, `DeliverReply`). This leaves out the actual delays (2 s and 1 s), the order in which timers fire relative to other events, and unmounting: neither component clears its timers, and what a timer does after the component is gone is not modelled.
- DemoForm.DemoModal.Submit: the browser's constraint validation is not modelled. The `<form>` (src/components/ui/DemoModal.tsx:151) has no `noValidate`. The name, email and phone inputs are `required` (:165), the email input is `type="email"` (:155), and the plan `<select>` is `required` with an empty placeholder option (:181, :185). In the page, an empty name, email or phone, an unselected plan, or a value the browser does not take as an email address stops the submit before `handleSubmit` runs. `Submit` models `handleSubmit` alone, so it sends rows with an empty plan that the page would block.
- The modal's own close button (src/components/ui/DemoModal.tsx:134) and the `isOpen` prop only call or read the parent's state. They have no state of their own to model.
- Rendering, animation and styling are not modelled, in either component or the rest of the site.
- React batching and stale closures are not modelled. Each handler runs on the state as last rendered, and the model assumes a re-render between events. This is where `setMessages([...messages, …])` and `{ ...formData, … }` read from.
- Field names are the five input names of the form, as a datatype. Any other name reaches the `default` branch of `validateField` just as the plan selection does.
- The `errors` entry that `handleChange` writes for the plan selection is never read, so `Errors.With` drops it.
- Strings are sequences of Unicode scalar values. Lone UTF-16 surrogates cannot be written, so `Utf16Length` never sees one.
- `Validation.MessageRule`: the 300 limit is on UTF-16 code units, as `.length` counts them. So text outside the Basic Multilingual Plane (emoji, for instance) reaches the limit with fewer than 300 characters. `MessageRuleInCharacters` states the resulting bounds in characters.
- The pages, the navigation bar, the theme toggle, the 3D scene and the particle effects have no logic of the kind modelled here. They are browser plumbing, floating point or rendering.
