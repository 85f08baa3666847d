# HealthBuddy report pipeline in Dafny

This project models the deterministic core of HealthBuddy, a health assistant
that reads lab reports. It proves properties of four parts of that core:

- **Line parser** (`ParserTool`). It splits OCR text into lines and picks the lab
  test each line mentions, using an ordered alias table. It then takes the first
  number as the value, the second and third numbers as the reference range, a unit
  from a fixed alternation, and a Low/High flag. The results go into a map from test
  key to observation, where the last line for a key wins.
- **Threshold classifier and report composer** (`SummaryAgent`).
  - `detect_abnormal` judges a stored value. It tries an exact threshold key first,
    then the first threshold key contained in the field name, then the report's own
    flag.
  - `build_report_strings` writes the English and Hindi summaries, one line per
    field, and a doctor note that lists every Low and High field.
  - `run` reports an error when there is no data.
- **Symptom triage** (`SymptomAgent`). A three-level keyword classifier: urgent
  words first, then concerning words, then Low.
- **Chat agent** (`ChatAgent`).
  - A rule-based fallback answers when the language model gives nothing.
  - `run` appends the user's message and the reply to the stored history. It
    builds the prompt from the last six entries.

Modules:

- `Text` (text.dfy): the string operations the Python code relies on. These are
  lower/upper case, substring search, `split`/`join` on one separator, and `strip`.
- `Parser` (parser.dfy)
- `Summary` (summary.dfy)
- `Symptom` (symptom.dfy)
- `Chat` (chat.dfy)

The imperative loops of the source (`detect_test`, `parse` and
`build_report_strings`) are methods. Each is proved equal to a specification
function, and the lemmas are stated about that function:

- `Parser.DetectTest` walks the alias table.
- `Parser.Parse` fills the result map line by line.
- `Summary.BuildReportStrings` appends to three line lists.

`Chat.ChatAgent.Run` is the state-changing method. It has no loop, but it
appends to the history and saves it into the agent's chat files.

Loops that only compute a value are recursive functions:

- the partial-key search of `detect_abnormal` is `Summary.PartialThreshold`;
- the prompt's list comprehension is `Chat.PromptLines`.

The external services become parameters:

- The language model is a function `llm: string -> string`. An empty answer stands
  for "no key, or the call failed".
- Python's float formatting is a function `render: real -> string`.
- Timestamps are string parameters.
- The chat files are a map from user to history, held by the `ChatAgent` object.

Two consequences of the source's table order are proved rather than assumed:

- The alias "hb" of hemoglobin is tried before "hba1c". So a line that mentions
  HbA1c is read as hemoglobin (`Parser.Hba1cReadAsHemoglobin`), and the key
  `hba1c` never occurs in a parse result (`Parser.NeverHba1c`).
- The value is the first number token of the line, digits in the test's name
  included.

## Model

| member | source | states |
|---|---|---|
| Text.SplitJoin | HealthBuddy/tools/parser_tool.py:65 | splitting on a separator and joining back with it gives the original text, as `str.split` does |
| Parser.FirstTest | HealthBuddy/tools/parser_tool.py:28-32 | no test is found iff no alias of any table entry occurs in the line; otherwise the key is that of the first entry, in table order, with an alias in the line |
| Parser.DetectTest | HealthBuddy/tools/parser_tool.py:28-32 | the search loop over the table returns exactly the first-match result `FirstTest` |
| Parser.TokensWellFormed | HealthBuddy/tools/parser_tool.py:34-35 | every extracted token is digits, then at most one '.', then digits |
| Parser.TokensEmptyIff | HealthBuddy/tools/parser_tool.py:34-35 | the token list is empty iff the line holds no digit |
| Parser.NumberTokens | HealthBuddy/tools/parser_tool.py:34-35 | no contract of its own; `TokensWellFormed`, `TokensEmptyIff` and `FirstTokenLeftmostMaximal` state its properties |
| Parser.FirstTokenLeftmostMaximal | HealthBuddy/tools/parser_tool.py:34-35 | the first token starts at the line's first digit and cannot be extended by the next character. The remaining tokens are exactly those of the text after it, so every token is leftmost-first and maximal |
| Parser.TestNameDigitsCount | HealthBuddy/tools/parser_tool.py:47-51 | the tokens of "T3 1.2" are "3" and "1.2": digits in a test's name are numbers too |
| Parser.DecimalValue | HealthBuddy/tools/parser_tool.py:51 | `float(token)` of an unsigned token is never negative |
| Parser.DecimalWhole | HealthBuddy/tools/parser_tool.py:51 | a token without a point reads as the integer its digits denote |
| Parser.DecimalPoint | HealthBuddy/tools/parser_tool.py:51 | a token `w.f` reads as the integer `w` plus the integer `f` over ten to the number of digits of `f` |
| Parser.DecimalExample | HealthBuddy/tools/parser_tool.py:51 | "11.2" reads as 11.2 |
| Parser.DecimalTrailingPoint | HealthBuddy/tools/parser_tool.py:51 | "12." reads as 12 |
| Parser.DecimalLeadingZeros | HealthBuddy/tools/parser_tool.py:51 | "007.50" reads as 7.5 |
| Parser.FirstPrefix | HealthBuddy/tools/parser_tool.py:38 | at one position, the alternation picks the first alternative in list order that matches there, and none if none matches |
| Parser.SearchAlternatives | HealthBuddy/tools/parser_tool.py:38 | `re.search` over the alternation: a found alternative is one of the listed ones; `SearchLeftmost` and `SearchNoneIff` state where and when it is found |
| Parser.SearchLeftmost | HealthBuddy/tools/parser_tool.py:38-39 | a found unit matches at the leftmost position where any alternative matches |
| Parser.SearchNoneIff | HealthBuddy/tools/parser_tool.py:38-39 | the search finds nothing iff no alternative occurs anywhere in the text |
| Parser.DetectUnit | HealthBuddy/tools/parser_tool.py:37-39 | the unit is "" or one of g/dl, mg/dl, ng/ml, iu/l, mlu/ml, %, /ul |
| Parser.DetectUnitSpec | HealthBuddy/tools/parser_tool.py:37-39 | the unit is "" iff no unit occurs in the line; otherwise it is the first-listed unit matching at the leftmost matching position |
| Parser.FlagOf | HealthBuddy/tools/parser_tool.py:59 | the flag is Low iff "low" occurs anywhere in the line, High iff "low" does not occur and "high" does, and "" otherwise |
| Parser.LineObservation | HealthBuddy/tools/parser_tool.py:41-61 | no contract of its own; `LineObservationIff` and `NoObservation` state its properties |
| Parser.ParseLine | HealthBuddy/tools/parser_tool.py:41-61 | the imperative `parse_line` returns exactly the observation `LineObservation` specifies |
| Parser.LineObservationIff | HealthBuddy/tools/parser_tool.py:41-61 | a line yields an observation iff some alias occurs and it holds a digit. The key is the first-mentioned test and the value is the first token. The range is `nums[1] - nums[2]` iff there are at least three tokens. The unit is the detected unit, "" or a listed one, and the flag is the line's flag |
| Parser.NoObservation | HealthBuddy/tools/parser_tool.py:42-49 | a line with no alias or no digit yields no observation |
| Parser.ParseText | HealthBuddy/tools/parser_tool.py:63-69 | no contract of its own; `ParseLastWins`, `ParseKeysInTable`, `ParseEmpty`, `AppendSilentLine`, `AppendDetectedLine`, `NeverHba1c` and `ParseNonNegative` state its properties |
| Parser.Parse | HealthBuddy/tools/parser_tool.py:63-69 | the loop that fills `structured` returns exactly the fold `ParseText` of the lines' observations |
| Parser.CollectLastWins | HealthBuddy/tools/parser_tool.py:64-68 | in the fold, a key is present iff some entry carries it, and it maps to the observation of the last such entry |
| Parser.ParseLastWins | HealthBuddy/tools/parser_tool.py:63-69 | a key is in the parse result iff some line yields it, and its observation comes from the last such line |
| Parser.LineKeyInTable | HealthBuddy/tools/parser_tool.py:28-32 | a detected key is always a key of the alias table |
| Parser.ParseKeysInTable | HealthBuddy/tools/parser_tool.py:63-69 | the result's keys are a subset of the alias table's keys |
| Parser.ParseEmpty | HealthBuddy/tools/parser_tool.py:63-69 | the empty text parses to the empty map |
| Parser.AppendSilentLine | HealthBuddy/tools/parser_tool.py:65-68 | appending a line that yields no observation leaves the result unchanged |
| Parser.AppendDetectedLine | HealthBuddy/tools/parser_tool.py:65-68 | appending a line that yields `(k, o)` sets `k` to `o` and changes nothing else |
| Parser.LineNeverHba1c | HealthBuddy/tools/parser_tool.py:6-32 | no line is ever detected as `hba1c`, because "hb" (hemoglobin) is tried first |
| Parser.Hba1cReadAsHemoglobin | HealthBuddy/tools/parser_tool.py:6-32 | a line whose lower-cased text contains "hba1c" is detected as `hemoglobin`, and any observation it yields carries that key |
| Parser.NeverHba1c | HealthBuddy/tools/parser_tool.py:63-69 | `hba1c` is never a key of the parse result |
| Parser.ParseNonNegative | HealthBuddy/tools/parser_tool.py:47-51 | every value in the parse result is non-negative |
| Summary.Status.Name | HealthBuddy/agents/summary_agent.py:81-82 | only the unknown status is the empty string, the one `if status` skips |
| Summary.Compare | HealthBuddy/agents/summary_agent.py:52-56 | Low iff below the low bound, High iff above the high bound, Normal iff within the bounds inclusive |
| Summary.ThresholdsOrdered | HealthBuddy/agents/summary_agent.py:19-32 | every threshold's low bound is at most its high bound |
| Summary.ThresholdKeysDistinct | HealthBuddy/agents/summary_agent.py:19-32 | the threshold keys are pairwise distinct |
| Summary.ExactThreshold | HealthBuddy/agents/summary_agent.py:50-51 | the dictionary lookup: no entry iff no key equals `k`, else the index of the entry with that key |
| Summary.PartialThreshold | HealthBuddy/agents/summary_agent.py:58-59 | none iff no threshold key occurs in `k`, else the first entry in table order whose key occurs |
| Summary.Judge | HealthBuddy/agents/summary_agent.py:50-66 | no contract of its own; `ExactMatch`, `PartialMatch`, `NoMatchUsesFlag` and `ThresholdOverridesFlag` state its properties through `DetectAbnormal` |
| Summary.DetectAbnormal | HealthBuddy/agents/summary_agent.py:44-66 | a missing value gives the empty status, and Low or High only ever come with a value |
| Summary.ExactMatch | HealthBuddy/agents/summary_agent.py:50-56 | when the lower-cased key is a table key, that entry's bounds decide Low, High and Normal, bounds inclusive |
| Summary.PartialMatch | HealthBuddy/agents/summary_agent.py:58-64 | with no exact key, the first table key contained in the key decides, in table order ("fs h" before "fsh") |
| Summary.FlagStatus | HealthBuddy/agents/summary_agent.py:66 | the flag read back as a status has the same string as the flag the parser stored ("Low", "High" or "") |
| Summary.NoMatchUsesFlag | HealthBuddy/agents/summary_agent.py:65-66 | when no table key occurs in the key, the status is the report's own flag |
| Summary.ThresholdOverridesFlag | HealthBuddy/agents/summary_agent.py:50-64 | when some table key occurs in the key, the report's flag has no effect |
| Summary.ParsedFieldStatus | HealthBuddy/agents/summary_agent.py:44-66 | a field read by the parser always has a value; its status is empty iff no table key occurs in its name and the line carried no flag |
| Summary.HemoglobinExample | HealthBuddy/agents/summary_agent.py:20 | hemoglobin 11.2 is Low whatever flag the report carries |
| Summary.TshBoundExample | HealthBuddy/agents/summary_agent.py:24 | TSH 4.0, on the upper bound, is Normal |
| Summary.Classify | HealthBuddy/agents/summary_agent.py:78-80 | one row per field, in data order, carrying the field's `detect_abnormal` status |
| Summary.FieldLine | HealthBuddy/agents/summary_agent.py:79-82 | the stripped `KEY: value unit` line, with the status separator and status word appended iff the status is known |
| Summary.AlertOf | HealthBuddy/agents/summary_agent.py:91-94 | a row raises one alert iff its status is Low or High, carrying its key, status and value |
| Summary.AlertTexts | HealthBuddy/agents/summary_agent.py:91-94 | one `KEY: LOW/HIGH (value v)` line per alert, in order |
| Summary.BuildReportStrings | HealthBuddy/agents/summary_agent.py:68-109 | the loop produces the header plus each field's line and an empty line, joined by newlines, identical in English and Hindi. The doctor note is the model's rewrite or the draft over the alert lines |
| Summary.AlertsAppend | HealthBuddy/agents/summary_agent.py:78-94 | alerts keep data order: the alerts of a concatenation are the concatenation of the alerts |
| Summary.AlertsEmptyIff | HealthBuddy/agents/summary_agent.py:96-100 | there are no alert lines iff no field is Low or High |
| Summary.AlertsExactly | HealthBuddy/agents/summary_agent.py:90-94 | an alert is listed iff some row has that key, value and a Low or High status |
| Summary.AlertsCount | HealthBuddy/agents/summary_agent.py:90-94 | the number of alerts equals the number of Low or High rows |
| Summary.SpacedShape | HealthBuddy/agents/summary_agent.py:83-88 | each line is followed by exactly one empty line |
| Summary.BodyShape | HealthBuddy/agents/summary_agent.py:78-88 | the body has two entries per field: its line, with its status when known, then "" |
| Summary.AlertsOfData | HealthBuddy/agents/summary_agent.py:90-94 | the doctor note lists exactly the Low and High fields of the data, one each |
| Summary.DoctorNote | HealthBuddy/agents/summary_agent.py:97-107 | no contract of its own; `DraftNoteIff`, `DoctorNoteDraft` and `DoctorNoteEnhanced` state its properties |
| Summary.DraftNoteIff | HealthBuddy/agents/summary_agent.py:97-100 | the draft is the no-alerts sentence iff there are no alert lines |
| Summary.DoctorNoteDraft | HealthBuddy/agents/summary_agent.py:97-107 | without a model answer, the note is the no-alerts sentence iff there are no alerts, else the heading over the joined alert lines |
| Summary.DoctorNoteEnhanced | HealthBuddy/agents/summary_agent.py:103-105 | a non-empty model answer is the note, unchanged |
| Summary.Run | HealthBuddy/agents/summary_agent.py:111-116 | the result is the error "no data" iff the data is empty, else the three report strings |
| Symptom.Triage | HealthBuddy/agents/symptom_agent.py:2-8 | no contract of its own; `TriageIff` states it exactly, and `TriageCaseInsensitive`, `TriageMonotone`, `SevereFeverIsHigh` and `FeverIsModerate` follow |
| Symptom.TriageIff | HealthBuddy/agents/symptom_agent.py:2-8 | High iff an urgent word occurs in the lower-cased text. Moderate iff none does and a concerning word does. Low iff neither |
| Symptom.TriageCaseInsensitive | HealthBuddy/agents/symptom_agent.py:3 | texts equal up to letter case get the same risk |
| Symptom.TriageOfLower | HealthBuddy/agents/symptom_agent.py:3 | lower-casing the input first does not change the risk |
| Symptom.TriageMonotone | HealthBuddy/agents/symptom_agent.py:2-8 | appending more text never lowers the risk |
| Symptom.SevereFeverIsHigh | HealthBuddy/agents/symptom_agent.py:4-5 | a text mentioning both "severe" and "fever" is High: the urgent list is checked first |
| Symptom.FeverIsModerate | HealthBuddy/agents/symptom_agent.py:6-7 | "Fever" alone is Moderate |
| Symptom.Run | HealthBuddy/agents/symptom_agent.py:10-16 | the risk is one of High, Moderate, Low and is the triage result. The English sentence is "Your symptoms are " + risk, the Hindi one embeds the same word |
| Chat.Fallback | HealthBuddy/agents/chat_agent.py:29-38 | no contract of its own; `FallbackChoice` and `FallbackCaseInsensitive` state its properties |
| Chat.GenerateReply | HealthBuddy/agents/chat_agent.py:23-38 | no contract of its own; `ModelReplyKept` states that a non-empty model answer is returned unchanged, and otherwise the reply is `Fallback` of the prompt by definition |
| Chat.Window | HealthBuddy/agents/chat_agent.py:53 | no contract of its own; `WindowSuffix` and `WindowSlides` state its properties |
| Chat.Prompt | HealthBuddy/agents/chat_agent.py:52-54 | no contract of its own; `PromptLines` and `PromptEndsWithMessage` state its properties |
| Chat.Exchange | HealthBuddy/agents/chat_agent.py:44-63 | no contract of its own; `ExchangeAppendsTwo` states its properties |
| Chat.PromptLines | HealthBuddy/agents/chat_agent.py:52-54 | one `role: message` line per entry, in order |
| Chat.ChatAgent.constructor | HealthBuddy/agents/chat_agent.py:6-8 | the agent starts over the given chat files |
| Chat.ChatAgent.LoadHistory | HealthBuddy/agents/chat_agent.py:13-17 | a user without a file has the empty history, otherwise the stored one |
| Chat.ChatAgent.SaveHistory | HealthBuddy/agents/chat_agent.py:19-21 | the user's file is replaced by the history, and every other file is unchanged |
| Chat.ChatAgent.Run | HealthBuddy/agents/chat_agent.py:40-67 | the reply is generated from the prompt over the loaded history plus the user's entry. The user's file becomes the old history plus the user entry and an assistant entry holding the returned reply |
| Chat.ModelReplyKept | HealthBuddy/agents/chat_agent.py:25-27 | a non-empty model answer is returned unchanged |
| Chat.FallbackChoice | HealthBuddy/agents/chat_agent.py:30-38 | on the lower-cased prompt: the AMH reply iff "amh" occurs, the FSH reply iff not and "fsh" occurs, the symptom reply iff neither and "symptom" occurs, else the default |
| Chat.FallbackCaseInsensitive | HealthBuddy/agents/chat_agent.py:30 | the fallback does not depend on letter case |
| Chat.WindowSuffix | HealthBuddy/agents/chat_agent.py:53 | the window is the last min(6, n) entries, in order |
| Chat.WindowSlides | HealthBuddy/agents/chat_agent.py:53 | adding an entry puts it last in the window and drops the oldest once six are shown |
| Chat.PromptEndsWithMessage | HealthBuddy/agents/chat_agent.py:44-54 | the prompt covers one to six entries and ends with the new user message's line |
| Chat.ExchangeAppendsTwo | HealthBuddy/agents/chat_agent.py:44-63 | an exchange keeps the earlier entries and adds exactly a user entry with the message, then an assistant entry with the reply |

## Left out

- Text.Lower: maps only the ASCII letters A-Z. Python's `str.lower` also maps other
  letters. This affects only lines with non-ASCII capitals.
- Text.Upper: maps only a-z, for the same reason.
- Parser.Parse: the result is an unordered map. Python's dict keeps insertion order,
  and an overwrite keeps a key at the position of its first line. That order reaches
  the patient file and decides the order of the summary lines and doctor alerts.
  The model does not carry it: the summary takes its data as a separate sequence.
- Parser.DecimalValue: gives the exact decimal value. IEEE double rounding of
  `float(token)` is not modelled.
- Summary.Compare: compares exact reals, so a stored value that went through
  double rounding may sit on the other side of a bound.
- Summary.FieldLine: a stored value is printed by the `render` parameter, in place
  of Python's float formatting.
- Summary.FieldLine: a value stored as JSON `null` prints as "None" in Python. The
  model treats it like an absent value, which prints as "".
- Summary.DetectAbnormal: only the flags the parser stores ("Low", "High", "") are
  read back. An arbitrary flag string in a hand-edited patient file is not modelled.
- Summary.DetectAbnormal: a stored value is taken to be a number. A non-numeric
  JSON value would make Python raise on comparison.
- Summary.Run: `load_patient` (file existence and JSON decoding) is not modelled.
  The patient data arrives as a sequence of fields in dictionary order.
- `gemini_generate` (environment variable, network call, exceptions) is the `llm`
  parameter. Any failure is the empty answer.
- Timestamps: the report header's time and the chat entries' times are parameters.
  The clock is not modelled.
- Chat.ChatAgent.SaveHistory: the chat files are a map from user name to history.
  Not modelled:
  - the path building of `_get_chat_file`
  - JSON encoding
  - directory creation
  - two user names that lead to the same file
- OCR (`ocr_tool.py`), the Streamlit UI, the ingest, orchestrator and tips agents are
  outside this model. They are I/O wrappers around the parts modelled here.
