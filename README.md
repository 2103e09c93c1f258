# Verified model of the application-form test helpers

The repository is a set of browser-driven end-to-end tests for a rental
application form. Almost every step is a call into the browser-automation
library. Two helpers in `tests/test_application_form.py` hold logic of their
own, and this project models and verifies both.

- **Phone-number formatting** (`format_phone_number`). A fixed table maps the
  dial codes 41, 49, 33, 385 and 1 to a mask. Each `X` of the mask is replaced,
  left to right, by the next character of the number. Every other mask
  character is copied. Placeholders left over when the number runs out stay a
  literal `X`. Characters beyond the last placeholder are dropped. An unknown
  dial code returns the number unchanged. Module `PhoneFormat`
  (`phone_format.dfy`): the loop is the method `ApplyMask`, which also returns
  the digit counter at loop exit. `FormatPhoneNumber` wraps it with the table
  lookup. Both are proved against the declarative predicate `IsMaskFill` and
  the functional model `Masked` / `FormatPhone`.
- **Dropdown option choice** (the option loop of `select_dropdown_option`),
  with the browser calls removed. It is a decision over the texts of the
  rendered options. It picks the first option whose trimmed, lower-cased text
  contains the lower-cased target. If nothing matches, it warns and picks
  option 0. If there are no options, it fails. Module `OptionChoice`
  (`option_choice.dfy`): the loop is the method `SelectDropdownOption`. It is
  proved equal to the function `ChooseOption`, whose contract states the
  first-match, fallback and error cases.

The outcome of a dropdown choice is `Clicked(index, matched)` or `NoOptions`.
`matched == false` marks the fallback path, where the source prints its
warning. `NoOptions` stands for the exception raised when the open dropdown
lists nothing.

## Model

| member | source | states |
|---|---|---|
| `PhoneFormat.FormatPhoneNumber` | tests/test_application_form.py:487-512 | a dial code outside 41, 49, 33, 385, 1 returns the number unchanged; a known code gives a correct fill of that code's mask; the result equals the functional model `FormatPhone` |
| `PhoneFormat.FormatPhone` | tests/test_application_form.py:487-512 | for a dial code in the table, the mask fill of that code's mask (its meaning is proved by `MaskedIsMaskFill`, `SlotsTakeDigitsInOrder` and `ExtraDigitsDropped`); for any other code, the number itself |
| `PhoneFormat.ApplyMask` | tests/test_application_form.py:501-510 | the output has the mask's length; literal mask characters stay at their index; the k-th `X` holds `phone_number[k]` while k < len(phone_number) and a literal `X` otherwise; the counter at loop exit is min(len(phone_number), number of `X`s); the output equals `Masked` |
| `PhoneFormat.Masked` | tests/test_application_form.py:505-510 | the filled mask has exactly the length of the mask |
| `PhoneFormat.MaskedIsMaskFill` | tests/test_application_form.py:505-510 | the functional model meets the declarative description: same length, literals in place, k-th placeholder holds the k-th digit or stays `X` |
| `PhoneFormat.SlotsTakeDigitsInOrder` | tests/test_application_form.py:505-508 | read at the placeholder positions, the output is the first min(n, slots) digits in order, followed by literal `X`s for the unfilled slots: no digit is skipped or repeated |
| `PhoneFormat.ExtraDigitsDropped` | tests/test_application_form.py:506-510 | digits beyond the number of placeholders do not change the result |
| `PhoneFormat.GermanExample` | tests/test_application_form.py:297 | dial code 49 with 15234567890 formats to `1523 4567890` |
| `PhoneFormat.SwissExample` | tests/test_application_form.py:490 | dial code 41 with 791234567 formats to `79 123 45 67` |
| `OptionChoice.SelectDropdownOption` | tests/test_application_form.py:234-247 | the scan returns exactly what `ChooseOption` returns |
| `OptionChoice.ChooseOption` | tests/test_application_form.py:234-247 | no options if and only if the error; a chosen index is in range; a matched choice is a matching option with no matching option before it (the minimal match); the fallback picks index 0 and only when no option matches |
| `OptionChoice.FirstMatch` | tests/test_application_form.py:235-241 | a found index matches and no earlier index matches; nothing is found if and only if no option matches |
| `OptionChoice.Matches` | tests/test_application_form.py:237-238 | an option matches when its trimmed, lower-cased text contains the lower-cased target (the meaning of each step is proved by `StripIsTrimmedSlice`, `Lower` and `ContainsIffOccurs`) |
| `OptionChoice.Contains` | tests/test_application_form.py:238 | Python's `in` on strings: the needle is a prefix of the text or of one of its suffixes; `ContainsIffOccurs` proves this is exactly "occurs at some index" |
| `OptionChoice.ContainsIffOccurs` | tests/test_application_form.py:238 | the substring test holds exactly when the target occurs at some index of the text (both directions) |
| `OptionChoice.ContainsNeedsRoom` | tests/test_application_form.py:238 | a target longer than the text is never contained in it |
| `OptionChoice.IsSpace` | tests/test_application_form.py:237 | the characters a default `str.strip()` removes: TAB..CR, FS..US, SPACE, NEL, NO-BREAK SPACE and the Unicode space separators |
| `OptionChoice.StripLeading` | tests/test_application_form.py:237 | removes the leading whitespace; `StripLeadingIsSuffix` proves it removes exactly the maximal leading run |
| `OptionChoice.StripTrailing` | tests/test_application_form.py:237 | removes the trailing whitespace; `StripTrailingIsPrefix` proves it removes exactly the maximal trailing run |
| `OptionChoice.Strip` | tests/test_application_form.py:237 | removes leading and trailing whitespace, as `.strip()` with no argument; `StripIsTrimmedSlice` proves the result is the slice between the two runs, with no whitespace at either end |
| `OptionChoice.StripLeadingIsSuffix` | tests/test_application_form.py:237 | stripping the front leaves a suffix, removes only whitespace, and leaves no leading whitespace |
| `OptionChoice.StripTrailingIsPrefix` | tests/test_application_form.py:237 | stripping the back leaves a prefix, removes only whitespace, and leaves no trailing whitespace |
| `OptionChoice.StripIsTrimmedSlice` | tests/test_application_form.py:237 | the stripped option text is the slice of the original between its leading and trailing whitespace, and neither of its ends is whitespace |
| `OptionChoice.LowerChar` | tests/test_application_form.py:237-238 | no ASCII capital is left in the result; a capital becomes the small letter at the same position in the alphabet; a character is kept exactly when it is not a capital |
| `OptionChoice.Lower` | tests/test_application_form.py:237-238 | lower-casing keeps the length and lowers each character in place |
| `OptionChoice.LowerIdempotent` | tests/test_application_form.py:237-238 | lower-casing twice is lower-casing once |
| `OptionChoice.TargetCaseIgnored` | tests/test_application_form.py:238 | two targets equal up to ASCII case choose the same option |
| `OptionChoice.EmptyTargetPicksFirst` | tests/test_application_form.py:238-241 | an empty target matches every option, so option 0 is chosen as a match |
| `OptionChoice.HouseholdOptionMatches` | tests/test_application_form.py:90 | the target `couple household` matches the option text `Couple Household` |
| `OptionChoice.ShortOptionNeverMatches` | tests/test_application_form.py:237-238 | an option text shorter than the target never matches |
| `OptionChoice.HouseholdChoice` | tests/test_application_form.py:90 | for the same target, an illustrative list whose first option (`Flat share`) does not match and whose second (`Couple Household`) does gives a match at index 1, not the fallback |

The two worked phone examples, `GermanExample` and `SwissExample`, take the dial code and the number as parameters fixed by their `requires` instead of string literals in the `ensures`, so that the verifier unfolds the formatter one mask group at a time.

## Left out

- Every browser-automation call: locators, clicks, fills, waits and sleeps, and the browser, page and fixture lifecycle. They call an external library against a live page. The option texts that the helpers read from the page become a parameter.
- `fill_phone_number` and `fill_business_phone_number` beyond their call of the formatter: choosing the dial code in the widget and filling the input are browser calls.
- The lookup of the dropdown itself (the two label-based locators and the "not found" exception) and the 5-second wait for options to appear. If that wait times out before any option is rendered, the source fails with a timeout before its own "no options" branch; both end the step with an error, and `NoOptions` stands for both.
- The printed warning on the fallback path and all other logging. The fallback is still visible as `matched == false`.
- The date-picker month navigation, the post-code retry, the delete-adult dialog, uploads and checkboxes. Their progress depends on how the live page reacts.
- The other test files and `tests/conftest.py`. They are linear click scripts and live-page assertions.
- OptionChoice.Lower: models ASCII lower-casing only. Python's `str.lower` also lower-cases non-ASCII letters, so option texts with non-ASCII capitals can compare differently.
- OptionChoice.IsSpace: follows the whitespace set of Python's default `str.strip()`. It is written out as a fixed list of code points rather than taken from the Unicode database.
