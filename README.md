# Page script: form validation, submit life cycle and navigation menu

This project models the interactive core of a small website's page script
(`script.js`) in Dafny and proves properties of the model:

- **Form validation** (`Validation`, on top of `Text`). The submit handler
  turns the form's fields into a map from field name to string. It then
  collects every broken rule, in a fixed order:
  1. "Name is required" when the name is missing or trims to nothing.
  2. "Email is required" when the email is missing or trims to nothing.
  3. "Please enter a valid email address" when the raw email string is
     non-empty and does not match `^[^\s@]+@[^\s@]+\.[^\s@]+$`.

  The pattern is stated directly as a predicate over positions
  (`EmailPattern`). It is proved equal to the `local@domain` reading
  (`LocalAtDomain`), and every accepted address is proved to hold exactly one
  `@`. Whitespace follows the ECMAScript WhiteSpace and LineTerminator sets.
  `trim` and `\s` share the one predicate `Text.IsWhitespace`. The three
  messages are the datatype `Validation.Message`. `MessageText` gives the
  exact text each one shows, and `AlertText` joins them with line breaks as
  the alert does.
- **Submit life cycle** (`Submission.FormController`). This class holds the
  field values, the submit button's `disabled` flag and label, the log of
  requests issued and how many have settled, and the alerts shown.
  - `Submit` validates. Invalid input only raises an alert. Valid input makes
    the button busy ("Submitting...") and issues one request.
  - `Settle` takes an abstract outcome: an HTTP status plus whether the body
    parses as JSON, or a network failure. It clears the fields only for a 2xx
    status with a parseable body. Whatever the outcome, it restores the
    button to enabled with the label "Submit".
  - Both methods keep the invariant `Valid()`. A disabled button is labelled
    "Submitting...", and with no request in flight the button is enabled.
    Until the first request the label is whatever the markup gave it; after
    that it is "Submitting..." exactly when the button is disabled, and
    "Submit" otherwise.
- **Navigation menu** (`Menu`). `MenuState` holds the panel's `active` class
  and the button's `aria-expanded` and `aria-label`. `Toggled`,
  `AfterDocumentClick`, `AfterResize` and `AfterClick` give each handler's
  effect. `MenuController` is the in-place class whose methods are proved
  to follow those functions.

Two behaviours of the code are kept as written:
- Only `aria-expanded` follows the panel class. The outside-click and resize
  handlers clear it but never write `aria-label`, so after closing an open
  menu the label still reads "Close menu" (`Menu.CloseLeavesStaleLabel`).
- The format check runs whenever the raw email is non-empty, so a
  whitespace-only email gets both "Email is required" and the format error
  (`Validation.EmailErrorCases`).

## Model

| member | source | states |
|---|---|---|
| `Text.TrimStartIsSuffix` | script.js:49-50 | Dropping leading whitespace keeps a suffix of the input. Everything cut off is whitespace. The result is empty or starts with a non-whitespace character. |
| `Text.TrimEndIsPrefix` | script.js:49-50 | Dropping trailing whitespace keeps a prefix of the input. Everything cut off is whitespace. The result is empty or ends with a non-whitespace character. |
| `Text.TrimIsSlice` | script.js:49-50 | `trim()` yields a slice of the input with only whitespace around it. Its ends are not whitespace. It is empty exactly when the input is all whitespace. |
| `Validation.EmailPatternIsLocalAtDomain` | script.js:51 | The regex, read as three plain runs split by `@` and `.`, accepts exactly the strings `local@domain`. Here `local` is non-empty with no whitespace or `@`, and `domain` has no whitespace or `@` and an inner `.`. |
| `Validation.EmailShape` | script.js:51 | An accepted address holds exactly one `@`. It follows a non-empty plain local part and precedes a valid domain of at least three characters. |
| `Validation.EmailExamples` | script.js:51 | `"a@b.c"` is accepted. `"a@b"` (no dot) and `"a b@c.d"` (space in the local part) are rejected. |
| `Validation.BlankEmailDoesNotMatch` | script.js:51 | A whitespace-only string never matches the pattern. |
| `Validation.EmailNotBlank` | script.js:50-51 | An address that matches the pattern is non-empty and does not trim to nothing. |
| `Validation.Errors` | script.js:48-53 | Each message is in the list exactly when its rule is broken: blank name, blank email, and truthy email not matching. The list holds only these three messages, each at most once, in the order name, email, format. |
| `Validation.NoErrorsIffValid` | script.js:48-55 | The list is empty, so the request goes ahead, exactly when the name is not blank and the email is present and matches. |
| `Validation.EmailErrorCases` | script.js:50-52 | A missing or empty email gets only "Email is required". A whitespace-only one gets that and the format error. A non-blank malformed one gets only the format error. A matching one gets neither. |
| `Validation.EmptyNameAndEmail` | script.js:48-56 | If name and email are each missing or empty, the list is exactly ["Name is required", "Email is required"], and the alert reads "Name is required", a line break, "Email is required". |
| `Validation.AlertText` | script.js:56 | The joined alert text is empty exactly when there are no messages. A single message shows its own text. |
| `Validation.AlertTextAppend` | script.js:56 | Each further message adds a line break and then its own text. |
| `Validation.CollectErrors` | script.js:48-53 | Pushing messages one by one onto an empty list yields exactly `Errors` of the fields. |
| `Submission.Cleared` | script.js:78 | Reset keeps every field and sets each one to the empty string. |
| `Submission.FormController.constructor` | script.js:45 | The page starts with the given fields, no requests and no alerts, and an enabled button with the label its markup gives it, which may be anything. |
| `Submission.FormController.Submit` | script.js:40-71 | The returned errors are `Errors` of the current fields; fields and settled count never change. With errors: only a validation alert is added, and button state and request log are unchanged (no request). Without errors: the button is disabled and labelled "Submitting...", and exactly one request with the current fields is appended. |
| `Submission.FormController.Settle` | script.js:72-87 | For a request in flight: fields are cleared and a success alert added only when the status is 2xx and the body parses. Otherwise fields are unchanged and a failure alert is added. In every case the button ends enabled and labelled with the literal "Submit", whatever the markup's label was, and the settled count grows by one. |
| `Menu.Toggled` | script.js:11-16 | Toggle flips the class. It writes both attributes from the old class, so its result is always consistent: expanded equals active, and the label is "Close menu" when open, "Open menu" when closed. |
| `Menu.ToggleTwice` | script.js:11-16 | Toggling twice restores the class and sets the flag to it. From a consistent state it restores the whole state. |
| `Menu.DocumentClickProperties` | script.js:19-24 | A click outside both the panel and the button closes the menu and clears the flag. A click inside either leaves the state unchanged. The label is never changed, and repeating the click changes nothing. |
| `Menu.ResizeProperties` | script.js:28-35 | A settled width above 768 closes the menu and clears the flag. A width of 768 or less changes nothing. The label is never changed, and repeating the resize changes nothing. |
| `Menu.ClickOnButtonToggles` | script.js:11-24 | A click on the button toggles and nothing more. The document handler sees the target inside the button. |
| `Menu.SyncedPreserved` | script.js:11-35 | Every handler keeps `aria-expanded` equal to the panel class. |
| `Menu.CloseLeavesStaleLabel` | script.js:19-35 | Closing an open, consistent menu by an outside click or a wide resize leaves the label "Close menu" on a closed menu. |
| `Menu.MenuController.ToggleClick` | script.js:11-16 | The new state is `Toggled` of the old one. |
| `Menu.MenuController.DocumentClick` | script.js:19-24 | The new state is `AfterDocumentClick` of the old one. |
| `Menu.MenuController.ResizeSettled` | script.js:28-35 | The new state is `AfterResize` of the old one at the settled width. |
| `Menu.MenuController.Click` | script.js:11-24 | A click runs the button's listener and then the document's. The new state is `AfterClick` of the old one. |

## Left out

- The network call (`fetch`, `JSON.stringify`, `response.json()`) is not modelled. Each request is logged with its body, and how it settles is the `Outcome` passed to `Settle`.
- `alert` is not modelled as I/O. The model records which notice was shown. The validation alert carries the message list; its text is `AlertText` of that list.
- `console.error` is not modelled. It is diagnostic output only.
- DOM querying, `FormData` and `Object.fromEntries` are not modelled. The model starts from the finished field map.
- `preventDefault` is not modelled. The browser's default submission is not part of the model.
- `Submission.FormController.constructor` assumes the submit button starts enabled. A button that the markup disables is not modelled.
- `form.reset()` is modelled as setting every field to the empty string, assuming the markup gives no default values.
- The cancel-and-reschedule resize debounce is not modelled. Each quiet period is one `ResizeSettled` event with the final width.
- Smooth anchor scrolling is not modelled: it is floating-point geometry plus `scrollTo` and `history.pushState`.
- The scroll-reveal observer and its load debounce are not modelled: they are a browser API wrapper that adds a class once.
- The error thrown when the page has no `.nav-menu` element is not modelled.
- `Submission.FormController.Settle` does not say which request settles when several are in flight. The model counts settlements, and it does not model the order in which overlapping requests resolve.
- `Text.IsWhitespace` lists the space separators of the current Unicode version. A JavaScript engine on another Unicode version may differ.
