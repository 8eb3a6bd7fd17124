# Form parser: a Dafny model

`formParser.py` is a small Streamlit application. It takes one uploaded file and
extracts its text: from PDF pages, by OCR of an image, or by decoding a plain-text file.
It asks a language model to rewrite the text as `Key: Value` lines and parses those
lines into an insertion-ordered dictionary. For keys that name a date of birth it
computes an age from the date found in the value. When that age is neither missing nor
0, it sets the entry "Calculated Age" to it. The page
then shows the text and the fields, or an error message when no text came out.

This project models the deterministic parts of that program:

- `PyText`: the Python string operations the program relies on (`strip`, `split`,
  `split(sep, 1)`, substring `in`).
- `OrderedDict`: a Python `dict` as a sequence of entries in insertion order.
- `FieldParser`: the line parser of `extract_all_key_value_pairs`.
- `DateSearch`: the regular expression search in `calculate_age`.
- `Strptime`: `datetime.strptime(..., "%d-%b-%Y")`.
- `AgeCalc`: `calculate_age` and the age expression.
- `DobScan`: the loop that adds "Calculated Age". It has two versions: the loop as
  written, and the loop as evidently intended (see Findings).
- `PdfText`: `extract_text_from_pdf`.
- `Pipeline`: the media-type dispatch, the prompt, and the choice between showing
  fields and showing the error.

Outside libraries and services appear as inputs: the page texts of the PDF, the OCR
text, the decoded text and the language model's answer. Each of them may fail with an
exception the program does not catch. The clock `datetime.today()` is a parameter
`today`.

The scan loop is stated for any age function `calcAge`. `DobScan.AgeOn(today)` turns
`calculate_age` into such a function, with the clock fixed to `today`. The pipeline and
the worked examples use that instance.

The intent and the code disagree in two places. In both, the model follows the code.

- The scan loop. The docstring of `calculate_age` (formParser.py:56) and the comment
  before the scan (formParser.py:96) say the age is added when a date of birth is
  present. As written, adding "Calculated Age" as a new key while iterating the
  dictionary makes the loop raise `RuntimeError`. `DobScan.ScanDob` models the loop as
  written. The rest of the pipeline uses the intended behaviour, `DobScan.AgeFieldScan`.
  The lemmas `DobScan.BirthdayPassed` and `DobScan.BirthdayAhead` work that behaviour
  out on two records (ages 44 and 23). This is the row under Findings.
- The date formats. The comment at formParser.py:58 names `DD-MM-YYYY`, `MM/DD/YYYY` and
  `YYYY-MM-DD`, yet none of them ever yields an age. The first two do not match the
  pattern at formParser.py:59: their month has two characters, where `\w{3,9}` needs at
  least three. `YYYY-MM-DD` matches the second alternative, and
  `strptime(..., "%d-%b-%Y")` (formParser.py:62) rejects it. Only `D-Mon-YYYY` and
  `DD-Mon-YYYY` give an age. The model keeps this behaviour, in
  `AgeCalc.NumericMonthNoAge`, `AgeCalc.YearFirstNoAge` and their three worked examples.
  There is no Findings row for it: the comment does not say which reading of a numeric
  date is intended, so there is no corrected parser to state.

## Model

| member | source | states |
|---|---|---|
| PyText.Strip | formParser.py:49 | `str.strip()`: `StripSpec` and `StripEmptyIffBlank` state what it returns. |
| PyText.StripSpec | formParser.py:49 | `strip()` returns a contiguous slice of its input. Only whitespace lies on either side of it, and the result neither starts nor ends with whitespace. |
| PyText.StripEmptyIffBlank | formParser.py:22 | The stripped text is empty exactly when the text is all whitespace. |
| PyText.Split | formParser.py:46 | `split("\n")` returns at least one piece. No piece holds the separator, and joining the pieces with the separator gives back the text. |
| PyText.SplitJoin | formParser.py:46 | Splitting the join of separator-free pieces gives back exactly those pieces. |
| PyText.SplitOnce | formParser.py:48 | `split(":", 1)` gives a head and a tail with `line == head + ":" + tail`, and the head holds no colon. |
| PyText.SplitOnceUnique | formParser.py:48 | Any split whose head holds no colon is the one `split(":", 1)` returns. |
| OrderedDict.Get | formParser.py:114-119 | The observer the contracts use to read the dictionary, as the display reads each entry. A lookup succeeds exactly for the dictionary's keys and returns the value stored under that key. |
| OrderedDict.Put | formParser.py:49 | Assigning an existing key keeps the key sequence and replaces that key's value in place. Assigning a new key appends the entry. |
| OrderedDict.PutKeys | formParser.py:49 | After an assignment the keys are the old keys plus the assigned key. Keys stay unique. The key sequence grows only when the key is new. |
| OrderedDict.GetPut | formParser.py:49 | After an assignment the assigned key reads the new value. Every other key reads as before. |
| OrderedDict.PutTwice | formParser.py:101 | Assigning a key twice equals assigning only the second value. |
| OrderedDict.FromPairs | formParser.py:44-49 | Replaying assignments gives unique keys: exactly the keys assigned. |
| OrderedDict.FromPairsLastWins | formParser.py:49 | A key holds the value of its last assignment. |
| OrderedDict.FromPairsOrder | formParser.py:49 | Keys are ordered by their first assignment. For any two keys of the result, the earlier one was assigned before the later one was first assigned. |
| FieldParser.LineEntry | formParser.py:47-49 | A line contributes an entry exactly when it holds a colon. The entry is the stripped text before the first colon and the stripped rest, later colons included. |
| FieldParser.LineEntryOfPair | formParser.py:47-49 | `key:value` with a colon-free key gives `(strip(key), strip(value))`, whatever colons the value holds. |
| FieldParser.ParseFields | formParser.py:44-51 | The dictionary `extract_all_key_value_pairs` returns. `ParseFieldsKeys`, `ParseFieldsNoColon`, `ParseFieldsLastWins` and `ParseFieldsOrder` state its keys, values and order. |
| FieldParser.ParseResponse | formParser.py:44-51 | The loop that fills the dictionary line by line returns the parse of the response. Its keys are unique. |
| FieldParser.ParseFieldsUnguarded | formParser.py:45 | The `if response.text:` guard does not change the result. |
| FieldParser.ParseFieldsKeys | formParser.py:46-49 | A key is in the result exactly when some line of the response assigns it. |
| FieldParser.ParseFieldsNoColon | formParser.py:45-47 | A response with no colon, including the empty response, gives the empty dictionary. |
| FieldParser.ParseFieldsLastWins | formParser.py:46-49 | A key assigned on several lines holds the value from the last of those lines. |
| FieldParser.ParseFieldsOrder | formParser.py:46-49 | Keys appear in the order of the first line that assigns each of them. |
| DateSearch.MatchAt | formParser.py:59 | The end of the match the engine finds at a position. Every result is a match of the pattern, and `MatchAtComplete` states that none is missed. |
| DateSearch.SearchFrom | formParser.py:59 | The leftmost match at or after a position. There is no match before it, and there is no result only when the pattern matches nowhere from that position. |
| DateSearch.DayWordYearEndComplete | formParser.py:59 | Every match of `\d{1,2}[-/]\w{3,9}[-/]\d{4}` at a position is the one the recogniser finds. |
| DateSearch.MatchAtComplete | formParser.py:59 | The recogniser finds a match at a position exactly when the pattern matches there. |
| DateSearch.MatchSpanUnique | formParser.py:59 | At a given position the pattern matches at most one span. The order in which alternatives are tried therefore does not matter. |
| DateSearch.FirstMatch | formParser.py:59-60 | `re.search` returns the leftmost match, or no match exactly when the pattern matches nowhere. |
| Strptime.ParseDayMonYear | formParser.py:62 | Every accepted text gives a valid date with year 1 to 9999 and a real day of its month. |
| Strptime.ParseFormat | formParser.py:62 | A valid date written as `DD-Mon-YYYY` parses back to the same date. |
| Strptime.ParseSound | formParser.py:62 | An accepted text is its valid date written in the format, in one of the ways `WrittenAs` allows: a day of one or two characters, the month in any case, a four-digit year. |
| Strptime.ParseComplete | formParser.py:62 | Every text that writes a valid date in one of those ways parses to that date. Together with `ParseSound`, the texts `strptime` accepts for a date are exactly its written forms. |
| Strptime.ParseVariants | formParser.py:62 | `1-jan-2000` and `01-JAN-1980` parse, to 2000-01-01 and to 1980-01-01. |
| Strptime.SlashNeverParses | formParser.py:62 | A text holding `/` is always rejected. |
| Strptime.YearFirstNeverParses | formParser.py:59-62 | A match of the `YYYY-MM-DD` alternative is always rejected. |
| Strptime.LongMonthNeverParses | formParser.py:59-62 | A match whose month word is not three letters long is always rejected. |
| AgeCalc.Age | formParser.py:64 | The age expression, with the tuple comparison counting as 1 or 0. `AgeIsAnniversariesReached`, `AgeNonNegative`, `BirthdayCounts` and `AgeZeroIff` state what it computes. |
| AgeCalc.AgeIsAnniversariesReached | formParser.py:64 | The age is at least `n` exactly when the `n`-th anniversary of the date of birth is on or before today. |
| AgeCalc.AgeNonNegative | formParser.py:64 | A date of birth on or before today gives an age of at least 0. |
| AgeCalc.BirthdayCounts | formParser.py:64 | On the birthday itself the age is the full difference of the years. |
| AgeCalc.AgeZeroIff | formParser.py:64 | The age is 0 exactly before the first birthday. A date of birth after today gives a negative age. |
| AgeCalc.ReadAge | formParser.py:61-65 | `strptime` of the matched text, then the age at the parsed date, with `None` for the `ValueError`. `CalculateAge` states the search around it; `ParseSound` and `ParseComplete` state which texts it reads. |
| AgeCalc.CalculateAge | formParser.py:55-68 | With no match the result is `None`. Otherwise it is the reading of the leftmost match: `strptime` of the matched text, then the age at that date, with `None` when `strptime` rejects the text. |
| AgeCalc.LeftmostIsFirst | formParser.py:59 | A span is the leftmost match exactly when the search returns that span. |
| AgeCalc.NoDateNoAge | formParser.py:59-68 | A value with no date-shaped text gives `None`. |
| AgeCalc.YearFirstNoAge | formParser.py:59-67 | A leftmost `YYYY-MM-DD` or `YYYY/MM/DD` match gives `None`. |
| AgeCalc.NumericMonthNoAge | formParser.py:58-59 | A ten-character value in a numeric format such as `DD-MM-YYYY` or `MM/DD/YYYY` gives `None`, because the pattern never matches it. |
| AgeCalc.DayMonthYearNoAge | formParser.py:58-59 | `15-06-1990` gives `None`. |
| AgeCalc.MonthDayYearNoAge | formParser.py:58-59 | `06/15/1990` gives `None`. |
| AgeCalc.YearMonthDayNoAge | formParser.py:58-62 | `1990-06-15` is found by the pattern and rejected by `strptime`, so it gives `None`. |
| AgeCalc.SlashDateNoAge | formParser.py:59-67 | A leftmost match holding a slash gives `None`. |
| AgeCalc.LongMonthNoAge | formParser.py:59-67 | A leftmost match whose month word is not three letters long gives `None`. |
| AgeCalc.InvalidDayNoAge | formParser.py:62-67 | A match in the format whose day does not exist in its month (31-Feb, 29-Feb of a common year) gives `None`. |
| AgeCalc.AgeOfWrittenDate | formParser.py:55-65 | A date written in the format, after text without digits, gives the age at that date. |
| PyText.Contains | formParser.py:98 | The substring test `sub in s`. `ContainsFirstChar` states that the first character of a contained text occurs in `s`, and `DobScan.AgeKeyIsNotDobKey` relies on it. |
| DobScan.IsDobKey | formParser.py:98 | The case-sensitive key test `"Date of Birth" in key or "DOB" in key`. `Stores` uses it, and `AgeKeyIsNotDobKey` shows that "Calculated Age" fails it. |
| DobScan.AgeOf | formParser.py:57-67 | `calculate_age(value)` on a stored value. A string goes to the age function; an integer makes `re.search` raise `TypeError`, which is caught, giving `None`. Used by `Stores`. |
| DobScan.Stores | formParser.py:98-101 | The loop body assigns "Calculated Age" for an entry when its key contains "Date of Birth" or "DOB" and its age is neither `None` nor 0. `AgeFieldScanResult` and `ScanDob` state the scan's outcome through it. |
| DobScan.AgeKeyIsNotDobKey | formParser.py:98-101 | "Calculated Age" is not a date-of-birth key, so the entry the loop writes is never one it reads. |
| DobScan.LastAge | formParser.py:97-101 | There is no age exactly when no entry stores one. Otherwise the result is the age of an entry after which no entry stores one. |
| DobScan.LastAgeStored | formParser.py:97-101 | The last age of the snapshot is the age of the last entry for which the loop body assigns, and there is none exactly when the body never assigns. |
| DobScan.AgeFieldScan | formParser.py:97-101 | The scan as evidently intended, over a snapshot of the entries. `AgeFieldScanResult` states its result. |
| DobScan.ScanPrefixShape | formParser.py:97-101 | The repeated assignments of the scan amount to one assignment of the last age found. |
| DobScan.AgeFieldScanResult | formParser.py:97-101 | After the intended scan, keys remain unique, and every key other than "Calculated Age" reads as before. "Calculated Age" holds the age of the last entry whose key names a date of birth and whose age is truthy. When there is no such entry it holds its old value, if any. The key is appended only when it is new and such an entry exists. |
| DobScan.ScanNoAge | formParser.py:98-100 | When no entry stores an age, the scan leaves the dictionary unchanged. |
| DobScan.ScanDob | formParser.py:97-101 | The loop as written, on the live dictionary, raises `RuntimeError` exactly when "Calculated Age" is new and the body assigns for some entry. Otherwise it returns the intended scan's result. |
| DobScan.ScanDobRaisesOnDobRecord | formParser.py:97-101 | A record `{"DOB": <date in the format>}` with a nonzero age makes the loop as written raise. |
| DobScan.BirthdayPassed | formParser.py:97-101 | On `{"DOB": "01-Jan-1980"}` with today 2024-06-15 the body assigns the age 44, and the intended scan appends "Calculated Age": 44. |
| DobScan.BirthdayAhead | formParser.py:97-101 | On `{"DOB": "02-Jun-2000"}` with today 2024-06-01 the body assigns the age 23, and the intended scan appends "Calculated Age": 23. |
| PdfText.PagesText | formParser.py:20-21 | The text the loop accumulates. `PagesTextAppend` and `PagesTextBlank` state its properties. |
| PdfText.PagesTextAppend | formParser.py:20-21 | The accumulated text of two runs of pages is the two texts concatenated. |
| PdfText.PagesTextBlank | formParser.py:20-22 | The accumulated text is all whitespace exactly when every page is, including when there are no pages. |
| PdfText.PdfTextOf | formParser.py:17-22 | The result is `None` exactly when every page is blank. Otherwise it is the page texts, each followed by "\n\n", and it is not empty. |
| PdfText.ExtractTextFromPdf | formParser.py:17-22 | The accumulating loop computes that result. |
| Pipeline.Prompt | formParser.py:34-39 | The prompt carries the document text at a fixed place between a fixed head and tail. The text can be read back from it. |
| Pipeline.Truthy | formParser.py:92 | The truth test `if extracted_text:`, false for `None` and `""`. `FalsyTextShowsError` and `TruthyTextShowsFields` state the two branches it selects. |
| Pipeline.ExtractText | formParser.py:82-90 | `extracted_text` after the media-type dispatch. `PdfDispatch` and `OtherDispatch` state it for every media type. |
| Pipeline.RunForm | formParser.py:76-121 | The program on one upload, up to what the page shows. `FalsyTextShowsError`, `UnknownTypeShowsError` and `TruthyTextShowsFields` state its outcomes. |
| Pipeline.PdfDispatch | formParser.py:83-86 | A PDF with text gives that text, and OCR is not consulted. A PDF whose pages are all blank gives the OCR text. |
| Pipeline.OtherDispatch | formParser.py:87-90 | Plain text gives the decoded text. PNG and JPEG give the OCR text. Any other type gives no text. Only the named input is consulted. |
| Pipeline.FalsyTextShowsError | formParser.py:92-121 | No text, or the empty text, shows the error message and never asks the model. |
| Pipeline.UnknownTypeShowsError | formParser.py:82-92 | A media type outside the four handled ones always ends in the error message. |
| Pipeline.TruthyTextShowsFields | formParser.py:92-101 | With text and a model answer, the page shows that text. The fields shown are exactly the keys assigned by lines of the answer, plus "Calculated Age" when the body assigned for some entry. Every other key keeps the value the parser gave it. |

## Left out

- The Streamlit page (formParser.py:71-74, 103-121) is presentation only. The model stops at what would be shown: the text and the dictionary, or the error message.
- The temporary file (formParser.py:77-79) is file I/O. It is created with `delete=False` and is never removed.
- pdfplumber, PIL and pytesseract (formParser.py:19-21, 26-27) are foreign libraries. Their page texts and OCR text are inputs. A page whose `extract_text()` returns `None` would raise `TypeError`; the model takes every page text as a string.
- The language model (formParser.py:14, 32, 41) is a network service. It is the parameter `llm` of `Pipeline.RunForm`, from prompt to response text or failure. The model name and the API key are not modelled.
- The `openai` import (formParser.py:3) is not used by the program.
- `datetime.today()` (formParser.py:63) reads the clock. It is the parameter `today`.
- UTF-8 decoding (formParser.py:88) is an input that may fail.
- `\d`, `\w` and the case-insensitive comparison of `%b` are ASCII-only. Python applies them to all of Unicode. `strip()` uses Python's full whitespace set.
- Pipeline.RunForm: uses the intended scan, `DobScan.AgeFieldScan`. The version as written, `DobScan.ScanDob`, would end the run with `RuntimeError` whenever "Calculated Age" is added as a new key.
- DobScan.ScanDobRaisesOnDobRecord: states only that the loop fails. The loop has a single error kind, so it does not name the error.
- DobScan.ScanDob: models the live dictionary as a value rebound at each assignment. There is no aliasing to model, because nothing else refers to the dictionary during the loop.

## Findings

| source | as written | input that shows it | evidently intended | confidence | as-written member | corrected member |
|---|---|---|---|---|---|---|
| formParser.py:97-101 | The loop assigns `extracted_data["Calculated Age"]` while iterating `extracted_data.items()`. When the key is new, the dictionary grows, and the iterator's next step raises `RuntimeError: dictionary changed size during iteration`. This happens even after the last entry. | `{"DOB": "01-Jan-1980"}` with today 2024-06-15 | The scan completes and adds `"Calculated Age": 44`, as if iterating over a snapshot of the entries. | not executed | DobScan.ScanDob, DobScan.ScanDobRaisesOnDobRecord | DobScan.AgeFieldScan, DobScan.AgeFieldScanResult, DobScan.BirthdayPassed |
