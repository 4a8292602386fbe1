# Attendance front end: the rules inside the page script

The attendance system's browser front end (`script.js`) is mostly glue
between the DOM and a remote backend. A few rules in it are self-contained,
and this project models them in Dafny and proves what they do:

- **Message templating** (`t`): a message code is looked up in the loaded
  translation table. It falls back to the code itself when the entry is
  missing or empty. Then each parameter, in the order `for...in` visits
  them, replaces the first `{key}` placeholder of the current text
  (`strings.dfy`, `i18n.dfy`).
- **Interface language**: `navigator.language || navigator.userLanguage` is
  matched against the prefixes `zh`, `ja`, `vi` and `id`, giving `zh-TW`,
  `ja-JP`, `vi` or `id`, and otherwise `en-US` (`i18n.dfy`).
- **Retroactive punch check** (`validateAdjustTime` and the submit handler
  of the adjustment form). A chosen time must lie between midnight on the
  1st of the current month and "yesterday": the present clock time one
  calendar day earlier. The checks run in a fixed order. An empty input is
  refused before the check, and the button type `in` maps to the clock-in
  label `上班`, anything else to the clock-out label `下班`
  (`calendar.dfy`, `adjustment.dfy`).
- **Month key**: `YYYY-MM`, the year as JavaScript prints a number and the
  month padded to two digits. It is the key of the abnormal-records request
  (`monthkey.dfy`).
- **Tab switching** (`switchTab`): a class `Page` holds each element's
  `style.display` and class list as maps. `SwitchTab` hides all three views
  and resets all three buttons in loops, then shows the chosen view and
  activates its button (`tabs.dfy`).

Times are local civil times (`Calendar.CivilTime`: year, month index 0–11
as `getMonth` gives it, day of month, milliseconds since midnight). Two
`Date`s compare as the lexicographic order of these fields. `MonthStart`
and `Yesterday` are computed from `now` by the same calendar steps as the
source, for years from 100 on (see "## Left out"). So
`setDate(getDate() - 1)` on the 1st rolls back to the last day of the
previous month, and in January to 31 December of the year before. The clock
reading `now` and the parsed form value are parameters. A form value that
parses to an Invalid Date is `None`. Every comparison with an Invalid Date
is false, so `ValidateAdjustTime(None, now)` accepts it, just as the source
does. The request for such a value is never sent: `toISOString` throws
while `callApiAdjustPunch` builds it (a `datetime-local` input never yields
such a value).

## Model

| member | source | states |
|---|---|---|
| `Strings.ReplaceFirst` | script.js:26 | `replace` with a string pattern: no occurrence leaves the text unchanged; otherwise exactly the leftmost occurrence is spliced out for the replacement |
| `Strings.LaterOccurrenceSurvives` | script.js:26 | an occurrence of the pattern wholly after the first one is still in the result, shifted by the length difference |
| `I18n.Lookup` | script.js:24 | the looked-up text is the code or the table's entry; an entry is passed over only when it is empty; the result is empty only for an empty code |
| `I18n.Translate` | script.js:23-29 | the loop over the parameters computes `Render` of the looked-up text; with no parameters the result is the looked-up text unchanged |
| `I18n.Render` | script.js:25-27 | the `for...in` loop as a left fold of first-occurrence replacements; a text that holds no parameter's `{key}` comes back unchanged |
| `I18n.RenderOneParam` | script.js:26 | one parameter replaces only the first `{key}`, keeps the text before it, and a later `{key}` is still in the output |
| `I18n.BrowserLanguage` | script.js:213 | `navigator.language` when it is present and non-empty, otherwise `navigator.userLanguage`, as `||` picks between them |
| `I18n.SelectLanguage` | script.js:214-224 | the tag is one of the five supported tags; each of `zh-TW`, `ja-JP`, `vi`, `id` is chosen exactly when the locale starts with its prefix, and `en-US` exactly when none of the four matches |
| `I18n.InitialLanguage` | script.js:213-224 | no language exactly when both navigator fields are missing (an empty `language` falls through); otherwise a supported tag: the prefix chain applied to `navigator.language` when it is non-empty, and to `navigator.userLanguage` when it is not |
| `Calendar.MonthStart` | script.js:311 | a valid time in `now`'s month, no later than `now` and no later than any valid time of that month |
| `Calendar.Yesterday` | script.js:309-310 | a valid time strictly before `now` with the same clock time, in the same month exactly when `now` is not the 1st |
| `Calendar.TomorrowOfYesterday` | script.js:309-310 | one day forward from `Yesterday(now)` is `now` again |
| `Calendar.YesterdayOfTomorrow` | script.js:309-310 | `Yesterday` undoes one day forward, so it is a bijection on valid times |
| `Calendar.YesterdayIsPreviousDay` | script.js:309-310 | no valid time with the same clock time lies strictly between `Yesterday(now)` and `now` |
| `Adjustment.ValidateAdjustTime` | script.js:306-322 | a valid time is accepted exactly when `MonthStart(now) <= s <= Yesterday(now)`; a time before the month start reports `ERR_BEFORE_MONTH_START` whatever else holds; otherwise a time after yesterday reports `ERR_AFTER_YESTERDAY`; an Invalid Date is accepted |
| `Adjustment.AcceptedIsEarlierThisMonth` | script.js:306-321 | accepted exactly when the time is in the current month on an earlier day, and on the day before today no later than the present clock time |
| `Adjustment.FirstOfMonthAcceptsNothing` | script.js:309-320 | on the 1st of a month every chosen time is rejected |
| `Adjustment.PunchLabel` | script.js:334 | the label is `上班` exactly when the button type is `in`, and `下班` otherwise |
| `Adjustment.Submit` | script.js:324-340 | an empty input is refused with the literal notice before validation runs; a rejection shows the translated code; an Invalid Date passes validation and then throws in `callApiAdjustPunch`; a request is sent exactly when the input is non-empty, parses to a time and validation accepts, with the mapped label and the input's value |
| `Adjustment.MonthStartReportedFirst` | script.js:313-320 | a submitted time before the month start is refused with `ERR_BEFORE_MONTH_START`, also when it is after yesterday too |
| `MonthKey.DecimalString` | script.js:146 | `String(year)`: a minus sign exactly for a negative year, then digits without a leading zero that denote the year's magnitude |
| `MonthKey.PadStart` | script.js:146 | `padStart`: the length is the larger of the target and the input, the input is the suffix, and the rest is fill |
| `MonthKey.MonthDigits` | script.js:146 | the month part has exactly two digits and denotes `getMonth() + 1` |
| `MonthKey.Key` | script.js:146 | the key is the year's decimal string, then `-`, then the two-digit month; both parts are recovered from the key |
| `MonthKey.ParseKeyOfKey` | script.js:146 | for a four-digit year the key has seven characters, `YYYY-MM`, and reads back to the same year and month |
| `MonthKey.KeyInjective` | script.js:146 | two months of any years share a key only if they are the same month |
| `Tabs.ButtonFor` | script.js:208 | `tab-` followed by the view id with its first `-view` replaced by `-btn`, or by the view id unchanged when it holds no `-view` |
| `Tabs.ButtonForView` | script.js:208 | `tab-${id.replace('-view', '-btn')}` maps each view to the button listed beside it |
| `Tabs.ReplaceClass` | script.js:204-209 | `classList.replace`: a present token is swapped for the new one, an absent token changes nothing, and other classes are kept |
| `Tabs.Deactivate` | script.js:204-205 | after the two reset passes a button has no active colour, it has an inactive colour exactly when it had that colour or its active counterpart, and its other classes are kept |
| `Tabs.Activate` | script.js:208-209 | afterwards the chosen button has no inactive colour, it has an active colour exactly when it had that colour or its inactive counterpart, and its other classes are kept |
| `Tabs.DeactivateKeepsStyled` | script.js:204-205 | a button with one colour of each pair still has one of each after the reset, and not the active ones |
| `Tabs.ActivateAfterDeactivate` | script.js:204-209 | a styled button that is reset and then activated carries exactly the active colours |
| `Tabs.ShowOnlyShowsExactlyOne` | script.js:203-207 | after the switch exactly the chosen view is `block`, the other views are `none`, and no other element changes |
| `Tabs.HighlightOnlyActivatesExactlyOne` | script.js:204-209 | when every button is styled, every button is still styled afterwards and only the chosen view's button carries the active style |
| `Tabs.HiddenThenShown` | script.js:203-207 | hiding all views and then showing the chosen one gives `ShowOnly` |
| `Tabs.ResetThenActivated` | script.js:204-209 | the two reset passes followed by activating the chosen button give `HighlightOnly` |
| `Tabs.Page.HideViews` | script.js:203 | every view is set to `none`; no other element and no class list changes |
| `Tabs.Page.ReplaceOnButtons` | script.js:204-205 | one `forEach` pass replaces the token on each of the three buttons and changes nothing else |
| `Tabs.Page.SwitchTab` | script.js:199-210 | the new displays are `ShowOnly` of the old ones and the new class lists are `HighlightOnly` of the old ones; on a page where every button has one colour of each pair this stays so, and exactly the chosen view's button ends up active |

## Left out

- Networking: `callApi`, `exchangeToken`, `callApiAdjustPunch` and `loadTranslations` (script.js:8-85) talk to an opaque remote backend over JSONP and `fetch`. The translation table is a parameter of `Translate`.
- Login and session handling, the OAuth redirect, `localStorage` and `history` (script.js:106-141, 232-261) are browser state and remote checks.
- Geolocation in `doPunch` (script.js:263-280) is an asynchronous browser API with floating-point coordinates.
- `showNotification` and its timer (script.js:88-104), and the HTML that `checkAbnormal` and the adjustment form render, are DOM work only. A notice is modelled as its text or its untranslated code.
- `Date` parsing, time zones and `toISOString` are not modelled. The form value's parsed time and `now` are inputs, and times are local civil times. Around a daylight-saving change the model and the browser part ways. In the repeated hour the instant order and the civil order can disagree; the model keeps the civil order. In the skipped hour `setDate(getDate() - 1)` and `new Date(y, m, 1)` move a clock time that does not exist forward, so `Yesterday`'s same-clock-time promise does not hold there; the model keeps the clock time.
- Calendar.MonthStart: `new Date(year, month, 1)` reads a year from 0 to 99 as 1900 + year. The model keeps the year as it is, so it differs for those years only, which no real clock reading reaches.
- Adjustment.ValidateAdjustTime: the source reads the clock twice (`now` and `yesterday` come from two `new Date()` calls, script.js:308-309). The model reads it once, so it leaves out a run that straddles midnight between the two calls.
- I18n.Translate: `for...in` visits integer-like keys first in ascending order. Here the parameters are a sequence already in visiting order. Parameter values are plain text: the special `$` patterns of `String.prototype.replace` and the conversion of non-string values to text are not modelled. Neither are prototype keys of the translation object, such as `constructor`.
- I18n.InitialLanguage: the model stops at the chosen tag. Storing it and loading its file (script.js:225-226) are I/O.
- Tabs.Page.SwitchTab: a class list is modelled as a set, so the position of a replaced token within the list is lost. The method requires one of the three view ids, as all its callers (script.js:345-347) pass. An element missing from the page, where `getElementById` returns null and the call throws, is excluded by `HasTabs`. The page markup is not part of this model: that it gives each button one colour of each pair is the `Valid` invariant, which `SwitchTab` keeps but cannot establish.
- MonthKey.ParseKeyOfKey: the read-back is stated for four-digit years only. `KeyInjective` covers every year.
- js/config.js holds only constant URLs.
