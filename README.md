# Charge-filing matcher: a verified model

`streamlit_app.py` looks up a company's registered charges at Companies House
and decides whether a charge filing (a PDF) matches what the user typed: the
company name, the persons entitled, a brief description of the charge and the
date the charge was created. This project models the text pipeline behind
that decision and proves properties of it:

- `parse_date` reads the query date (`"%d %B %Y"`) and renders it in words, as
  `DD/MM/YYYY` and as `YYYYMMDD` (module `DateNormalizer`, `date_normalizer.dfy`).
- `parse_pdf_content` joins the page texts of a filing and takes the charge
  code from the first page that shows `Charge code:` followed by three groups
  of three or four digits (module `ChargeCode`, `charge_code.dfy`).
- `extract_pdf_info` normalises the text (newlines to spaces, whitespace
  collapsed, upper case) and reads four fields out of it with anchored regular
  expressions, then cuts the description at a list of stop phrases (modules
  `TextNormalizer` and `FieldExtractor`).
- `check_pdf_conditions` compares the extracted fields with the query
  (module `MatchEvaluator`).
- `similarity_ratio` (`difflib.SequenceMatcher(...).ratio()`) is a parameter of
  the model: any function of two strings into [0, 1].

Module `Text` holds the string operations the pipeline is built from
(substring search, `strip`, `split(p)[0]`, ASCII `upper`), and `Wrappers`
the `Option` and `Result` types. A Python exception is a `Failure` value:
`parse_date`'s `ValueError` and the `TypeError` that `SequenceMatcher`
raises when an extracted field is `None`.

Each regular expression is modelled as an explicit scan. The doc comment of
each scan says why the scan finds what the expression matches:
- the search starts at the leftmost anchor;
- a lazy group stops at the earliest terminator;
- a `\s*` before `\d` never gives back a whitespace character.

Facts the model makes precise:
- The score `int(similarity_ratio(...)) * 100` is 0 or 100. So the `>= 95`
  tests pass only when the ratio is exactly 1.0 (`MatchEvaluator.Score`,
  `MatchEvaluator.VerdictMeaning`).
- The description expression already stops before the first `CONTAINS`, so
  the stop-phrase loop that follows it never changes the description
  (`FieldExtractor.DescriptionIsCaptured`). The code stops the description at
  four phrases (`CONTAINS`, `AUTHENTICATION OF FORM`, `CERTIFIED BY:`,
  `CERTIFICATION STATEMENT:`). The three longer `CONTAINS ...` phrases appear
  only in the stop-phrase loop. The model follows the code.
- `replace(" ", "")` removes only the space character. A tab, newline or
  other whitespace between the digit groups stays in the charge code
  (`ChargeCode.PageCode` allows exactly that), so a code is not always free
  of whitespace.

## Model

| member | source | states |
|---|---|---|
| Text.Upper | streamlit_app.py:72 | `upper()`: same length, each character replaced by its upper-case form |
| Text.FindAny | streamlit_app.py:75 | the leftmost position at or after `from` where one of the phrases begins; no phrase begins at any earlier position from `from` on |
| Text.Find | streamlit_app.py:73 | the leftmost occurrence of a phrase at or after `from`; none earlier |
| Text.Before | streamlit_app.py:81 | `s.split(p)[0]`: a prefix of `s` without `p`; when `p` occurs, it occurs right after the prefix and nowhere earlier; all of `s` when `p` does not occur |
| Text.BeforeFirst | streamlit_app.py:81 | with the first occurrence of `p` at `i`, `s.split(p)[0]` is `s[..i]` |
| Text.Strip | streamlit_app.py:74 | `strip()`: the result neither starts nor ends with whitespace, trimmed text is left unchanged, and every substring of the result is a substring of the input |
| Text.StripIsSlice | streamlit_app.py:74 | `strip()` removes exactly the whitespace at the two ends: the result is a slice, and everything cut off is whitespace |
| Text.SkipSpaces | streamlit_app.py:73 | `\s*`: the first non-whitespace position at or after `i`, with only whitespace skipped |
| TextNormalizer.Normalize | streamlit_app.py:72 | the normalised text has no newline, no leading or trailing whitespace, no two spaces in a row and no lower-case letter |
| TextNormalizer.NormalizeKeepsWords | streamlit_app.py:72 | the words of the normalised text are the upper-cased words of the input, in order |
| TextNormalizer.NormalizeIdempotent | streamlit_app.py:72 | normalising twice gives the same text as normalising once |
| TextNormalizer.NormalizeCanonical | streamlit_app.py:72 | a text already upper-case, single-spaced and trimmed is its own normal form |
| TextNormalizer.SplitJoinWords | streamlit_app.py:72 | `' '.join` then `split()` gives back the words |
| TextNormalizer.SplitJoinSingleSpaced | streamlit_app.py:72 | `split()` then `' '.join` gives back a single-spaced, trimmed text |
| TextNormalizer.SplitReplaceNewlines | streamlit_app.py:72 | replacing newlines by spaces does not change the words `split()` yields |
| DateNormalizer.MonthNumber | streamlit_app.py:43 | `%B` ignoring letter case: the month whose full name the token is, and none when it names no month |
| DateNormalizer.MonthNamesDistinct | streamlit_app.py:43 | two months with the same upper-cased name are the same month |
| DateNormalizer.MonthNumberOfName | streamlit_app.py:43-45 | the name `%B` renders reads back as its month |
| DateNormalizer.Value2Pad2 | streamlit_app.py:46 | the zero-padded two-digit rendering reads back as the number |
| DateNormalizer.Value4Pad4 | streamlit_app.py:47 | the zero-padded four-digit rendering reads back as the number |
| DateNormalizer.ParseCalendarDate | streamlit_app.py:43 | `strptime(s, "%d %B %Y")`: every date it reads exists in the calendar |
| DateNormalizer.RenderShape | streamlit_app.py:46-47 | the numeric rendering is `DD/MM/YYYY` and the file-name rendering is eight digits |
| DateNormalizer.ParseDate | streamlit_app.py:41-50 | fails exactly when `strptime` rejects the input, with the message `Invalid date format: <input>`; on success the numeric rendering is `DD/MM/YYYY` and the file-name rendering is eight digits |
| DateNormalizer.ParseWordForm | streamlit_app.py:43-45 | reading the word rendering of a date gives back the date |
| DateNormalizer.ParseDateOfWordForm | streamlit_app.py:41-48 | `parse_date` applied to its own word rendering returns the same three renderings |
| DateNormalizer.ParseDateRenderingsAgree | streamlit_app.py:44-48 | the three renderings `parse_date` returns all encode the date it read |
| DateNormalizer.ParseDateExample | streamlit_app.py:41-48 | `"05 January 2024"` gives `"05 January 2024"`, `"05/01/2024"` and `"20240105"` |
| DateNormalizer.ParseDateRejectsIso | streamlit_app.py:49-50 | `"2024-01-05"` raises `ValueError` |
| FieldExtractor.GroupBounds | streamlit_app.py:73-75 | the bounds of an anchored group lie inside the text, and no terminator begins inside them |
| FieldExtractor.CaptureSound | streamlit_app.py:73-76 | a captured field is trimmed and contains none of its terminators |
| FieldExtractor.CapturePresent | streamlit_app.py:73-74 | a field is captured exactly when an anchor is followed, after its end, by a terminator |
| FieldExtractor.CaptureBetween | streamlit_app.py:73-76 | with the leftmost anchor at `i` and the earliest terminator after it at `j`, the field is the stripped text between them |
| FieldExtractor.CaptureCanonical | streamlit_app.py:72-76 | a field captured from normalised text is itself upper-case, single-spaced and trimmed |
| FieldExtractor.CutAt | streamlit_app.py:80-81 | one stop-phrase step leaves text that does not contain the phrase, and leaves text without the phrase unchanged |
| FieldExtractor.CutAtFirst | streamlit_app.py:80-81 | when the phrase first occurs at `i`, the step gives the stripped text before `i` |
| FieldExtractor.CutAtAllSound | streamlit_app.py:77-81 | after all the stop phrases, no `CONTAINS` is left, trimmed text stays trimmed, and text without `CONTAINS` is unchanged |
| FieldExtractor.CutAtStopPhrases | streamlit_app.py:77-81 | the loop computes the stop-phrase function; no stop phrase is left; trimmed input stays trimmed; input without `CONTAINS` is unchanged |
| FieldExtractor.FindCreationDate | streamlit_app.py:82-83 | a creation date, when found, is `DD/MM/YYYY` |
| FieldExtractor.FindCreationDatePresent | streamlit_app.py:82-83 | a creation date is found exactly when some anchor is followed, past whitespace, by a `DD/MM/YYYY` token |
| FieldExtractor.FindCreationDateAt | streamlit_app.py:82-83 | the date found is the ten characters after the first anchor (past whitespace) that is followed by a date token |
| FieldExtractor.DescriptionIsCaptured | streamlit_app.py:75-81 | the stop-phrase loop leaves the captured description unchanged, and the description never contains `CONTAINS` |
| FieldExtractor.ExtractDescription | streamlit_app.py:75-81 | the description step computes the capture, then the loop, run only when the capture is non-empty |
| FieldExtractor.ExtractPdfInfo | streamlit_app.py:71-91 | `extract_pdf_info` computes the four fields of the normalised text |
| FieldExtractor.ExtractInfoFields | streamlit_app.py:71-91 | the company name has no `COMPANY NUMBER:`, the description no `CONTAINS`, the persons entitled none of their terminators; all three are trimmed; the date is `DD/MM/YYYY` |
| FieldExtractor.CompanyNamePresence | streamlit_app.py:72-74 | the company name is absent exactly when no `COMPANY NAME:` in the normalised text is followed by `COMPANY NUMBER:` |
| FieldExtractor.ExtractedTextIsNormalized | streamlit_app.py:72-85 | every extracted text field is its own normal form |
| ChargeCode.GroupsShape | streamlit_app.py:66 | a match of `count` digit groups is text the expression matches in full (each group three or four digits, whitespace only between groups); it starts and ends with a digit and holds `3 * count` to `4 * count` digits |
| ChargeCode.GroupsComplete | streamlit_app.py:66 | whenever the text at `p` begins with something the groups' expression matches, the scan finds a match at `p` |
| ChargeCode.SearchCodeShape | streamlit_app.py:66 | the group found by the search is text the three-group expression matches in full |
| ChargeCode.SearchCodePresent | streamlit_app.py:66-67 | a match exists exactly when some `Charge code:` is followed, past whitespace, by a match of the three groups |
| ChargeCode.SearchCodeAt | streamlit_app.py:66-67 | the group found is the one after the first `Charge code:` (at or after the start) that is followed by the three groups |
| ChargeCode.SearchCodeFinds | streamlit_app.py:66-67 | a `Charge code:` followed, past whitespace, by text the expression matches is always found |
| ChargeCode.RemoveSpaces | streamlit_app.py:68 | `replace(" ", "")` leaves no space |
| ChargeCode.RemoveSpacesConcat | streamlit_app.py:68 | removing spaces from two pieces of text gives the two results in order |
| ChargeCode.RemoveSpacesChar | streamlit_app.py:68 | on one character, a space is dropped and anything else is kept |
| ChargeCode.RemoveSpacesKeeps | streamlit_app.py:68 | every character other than the space is kept, and only those |
| ChargeCode.RemoveSpacesDigits | streamlit_app.py:68 | every digit is kept |
| ChargeCode.RemoveSpacesNoSpace | streamlit_app.py:68 | text without a space is unchanged |
| ChargeCode.PageCode | streamlit_app.py:66-68 | a page yields a code exactly when the expression matches its text; the code is the matched group with its spaces removed; it has no space, 9 to 12 digits, and no characters except digits and whitespace other than the space |
| ChargeCode.ThreeGroupsCode | streamlit_app.py:66-68 | a page reading `Charge code: 123 456 789`, for any three groups of three digits, yields `123456789` |
| ChargeCode.ParsePdfContent | streamlit_app.py:58-69 | the loop returns the page texts, each followed by a newline, and the code of the first page that yields one |
| ChargeCode.FirstCodeIsFirstMatch | streamlit_app.py:62-68 | the code is `""` exactly when no page yields one; otherwise it is the code of the first page that yields one |
| ChargeCode.FirstCodeStable | streamlit_app.py:65 | once a code is set, later pages do not change it |
| ChargeCode.JoinPagesAppend | streamlit_app.py:60-64 | the text of two runs of pages is the two texts one after the other |
| ChargeCode.FirstCodeShape | streamlit_app.py:65-68 | the code returned has the shape `PageCode` states |
| MatchEvaluator.Truncate | streamlit_app.py:95-96 | `int(x)`: the integer part, rounded toward zero |
| MatchEvaluator.Score | streamlit_app.py:95-96 | the score is a multiple of 100; for a ratio in [0, 1] it is 100 exactly when the ratio is 1.0 and 0 otherwise, so `>= 95` holds exactly at 1.0 |
| MatchEvaluator.VerdictMeaning | streamlit_app.py:93-106 | the check fails exactly when the description or the persons entitled is absent; it passes exactly when the company name equals the upper-cased query, both ratios against the upper-cased query are 1.0, and the dates agree |
| MatchEvaluator.CheckPdfConditions | streamlit_app.py:93-106 | `check_pdf_conditions` returns the verdict on the fields `extract_pdf_info` reads |
| MatchEvaluator.JudgeFields | streamlit_app.py:95-106 | the scoring and the four tests compute the verdict on the given fields |
| MatchEvaluator.QueryCaseIgnored | streamlit_app.py:95-98 | upper-casing the query first does not change the verdict |
| MatchEvaluator.ExactFieldsMatch | streamlit_app.py:93-106 | fields equal to the upper-cased query, with the query's date, pass when `similarity_ratio` rates a text against itself at 1 |

## Left out

- `scrape_title`, `get_company_info` and the Selenium browsing they do are not part of this model: they are browser automation.
- `get_pdf_content` (HTTP download) and PyPDF2's text extraction are not modelled. `ParsePdfContent` takes the page texts as input, with `None` for a page whose text the reader cannot extract.
- The Streamlit user interface, `show_companies_house_pdf`, `print_timed` and `DOWNLOAD_DIR` are not modelled: they are display, logging and file-system side effects.
- The caller's loop over candidate filings (`streamlit_app.py:187-214`) is not modelled. It goes through every filing row, catches each row's exceptions, does not stop at a match, and always ends by showing "No valid filings matched all conditions!". `Failure` values stand for the exceptions it catches.
- `similarity_ratio`: the internals of `SequenceMatcher` are left out. The ratio is a parameter, and only its range [0, 1] is assumed, and only where a lemma needs it.
- Text.Upper: only ASCII letters are upper-cased; Python's full Unicode case mapping (including characters whose upper case is longer) is not modelled.
- DateNormalizer.MonthNumber: letter case is ignored for ASCII letters only; Unicode case-insensitive matching (such as `ſ` matching `s`) is not modelled.
- ChargeCode.SearchCode: `\d` is modelled as the ASCII digits `0`-`9`; Python also matches other Unicode decimal digits.
- FieldExtractor.FindCreationDate: `\d` is modelled as the ASCII digits `0`-`9`, as for the charge code.
- DateNormalizer.ParseCalendarDate: the `\d` in `strptime`'s `%d` and `%Y` is modelled as the ASCII digits only. Python also accepts other Unicode decimal digits, so `"1٥ January 2024"` reads as day 15 there, while the model rejects it.
- DateNormalizer.ParseDate: `%Y` renders years below 1000 without zero-padding on some platforms; the model always pads to four digits.
- FieldExtractor.Capture: `.` in the expressions does not match a newline. The model does not represent this, because the text it scans is normalised and has no newline (a precondition of `Capture`).
