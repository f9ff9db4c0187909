# AyurSage response sectioner and prompt builder in Dafny

AyurSage is a one-page Streamlit app. The user types symptoms and, optionally, a
disease name. The app fills both into a fixed prompt template and sends the prompt to
a hosted language model. It then cuts the model's free-text reply into four sections:
"Possible Diseases", "Ayurvedic Medicines", "Lifestyle Recommendations" and "Things to
Avoid". This project models the deterministic parts of that flow and proves
properties about them:

- `pystr.dfy` (module `PyStr`): the Python string primitives the sectioner is built
  from, written out exactly:
  - `str.find` returns -1 when the pattern is absent;
  - `in`;
  - `str.replace` scans left to right without overlapping matches;
  - `str.strip()`;
  - slicing `s[i:j]` turns a negative bound into `len + i`, clamps both bounds into
    `[0, len]`, and gives the empty string when start >= end.
- `formatter.dfy` (module `Formatter`): `format_response`. It removes the noise text
  "Symptoms: fever Disease:", strips the reply, and then fills each of the four
  sections in order. A section's start is where its header is found, plus the
  header's length, plus one. Its end is where the next header plus ":" is found, or
  the end of the text for the last section. The value is the stripped slice between
  the two.
- `prompt.dfy` (module `Prompt`): the prompt template and its placeholder
  substitution. A template is modelled as its literal text before, between and after
  the two placeholders. `Prompt.Ayurvedic` is the app's template, character for
  character, and it holds no brace outside its two placeholders.
- `submit.dfy` (module `Submit`): one press of the "Get Recommendations" button. The
  completion service is a function parameter that maps a prompt to a reply or an
  error.
- `scenarios.dfy` (module `Scenarios`): concrete replies, with the values the code
  actually produces for them.

Whitespace for `strip()` is the fixed set that CPython's `str.isspace` accepts:

- U+0009 to U+000D;
- U+001C to U+001F;
- U+0020, U+0085 and U+00A0;
- U+1680;
- U+2000 to U+200A;
- U+2028, U+2029, U+202F and U+205F;
- U+3000.

### Where the code and the expected reading differ

The prompt asks for a reply in a fixed format: one line per section, each starting
with "- " and the section's header and colon (AyurSage.py:35-39). A reader of that
format expects each value to be the text after its header's colon. The model follows
the code, and the code gives something else in two cases:

- **A reply with only "Possible Diseases: flu."** A reader expects the value "flu.".
  The code gives "flu". The next header "Ayurvedic Medicines:" is absent, so `find`
  returns -1. A slice ending at -1 stops one character short of the end, so the final
  "." is lost. `Scenarios.OnlyDiseasesSections` proves the four values, and
  `Formatter.MissingDelimiterDropsLastChar` proves the general rule.
- **A reply in the requested format, one section per line.** Take the reply
  `"- Possible Diseases: flu.\n- Ayurvedic Medicines: tulsi tea.\n- Lifestyle Recommendations: rest.\n- Things to Avoid: cold drinks."`.
  A reader expects "flu.", "tulsi tea.", "rest." and "cold drinks.".

  In the code, each value runs up to the next header, which sits after the "- " of
  its line. So the values are "flu.\n-", "tulsi tea.\n-", "rest.\n-" and "cold
  drinks.". `Formatter.InOrderSection` states the rule that produces this.

## Model

| member | source | states |
|---|---|---|
| `PyStr.Find` | AyurSage.py:101 | The result is -1 exactly when the pattern does not occur. Otherwise the pattern starts at the result and at no smaller index. |
| `PyStr.FindIsFirstOccurrence` | AyurSage.py:101 | Any index where the pattern starts, with no earlier start, is the index `find` returns. |
| `PyStr.Replace` | AyurSage.py:88 | Removing text, that is replacing it with the empty string, never makes the input longer. The three rows below pin down what the result contains. |
| `PyStr.ReplaceWithoutMatch` | AyurSage.py:88 | Removing the noise from a reply that does not contain it leaves the reply unchanged. |
| `PyStr.ReplaceAtFirstMatch` | AyurSage.py:88 | Replacing keeps everything before the first match, emits the replacement, and resumes the scan just after the match, as CPython's find-and-continue loop does. |
| `PyStr.ReplaceCopies` | AyurSage.py:88 | A stretch of text in which no match starts is copied into the result unchanged. |
| `PyStr.Strip` | AyurSage.py:88 | The stripped text has no whitespace at either end. It is empty exactly when the input is all whitespace. |
| `PyStr.StripSurroundedBySpace` | AyurSage.py:106 | The input is whitespace, then the stripped text, then whitespace. |
| `PyStr.StripUnique` | AyurSage.py:106 | Any text with no whitespace at its ends that sits between whitespace in the input is the stripped text. |
| `PyStr.StripIdempotent` | AyurSage.py:106 | Stripping twice gives the same text as stripping once. |
| `PyStr.StripOccurs` | AyurSage.py:106 | The stripped text is a substring of the input. |
| `PyStr.SliceIndex` | AyurSage.py:106 | A slice bound is clamped into `[0, len]`. A negative bound counts from the end, and one below `-len` becomes 0. |
| `PyStr.PySlice` | AyurSage.py:106 | For any bounds, including negative and over-long ones, the slice is the text between the normalised start and end when the start comes first. It is empty otherwise. It is never longer than the text, and in-range bounds give the plain subsequence. |
| `PyStr.PySliceOccurs` | AyurSage.py:106 | Every slice is a substring of the sliced text. |
| `Formatter.Clean` | AyurSage.py:88 | The text every header search runs on has no surrounding whitespace. |
| `Formatter.CleanWithoutNoise` | AyurSage.py:88 | A reply that does not contain the noise text is only stripped: cleaning changes nothing but its surrounding whitespace. |
| `Formatter.ContentStart` | AyurSage.py:101 | When the header occurs, the content starts one character past the end of its first occurrence. When it does not, `find`'s -1 puts the start at the header's length. |
| `Formatter.ContentEnd` | AyurSage.py:102-105 | The end lies between -1 and the text's length. Any section other than the first three ends at the end of the text. |
| `Formatter.SectionContent` | AyurSage.py:99-106 | A section's value has no surrounding whitespace, and it is empty when its header does not occur. |
| `Formatter.FormatResponse` | AyurSage.py:86-108 | For every reply, the result has exactly the four headers in their fixed order. Every value has no surrounding whitespace, and a value whose header does not occur in the cleaned reply is empty. |
| `Formatter.DelimiterIsNextHeader` | AyurSage.py:102-104 | For the first three sections, the end delimiter is the next header in the fixed order, followed by a colon. |
| `Formatter.ValuesArePieces` | AyurSage.py:101-106 | Every value is a substring of the cleaned reply: the sectioner never invents text. |
| `Formatter.InOrderSection` | AyurSage.py:101-106 | When the next header follows the content start, entry `k` of the result is exactly the stripped text of the cleaned reply between the two. |
| `Formatter.MissingDelimiterDropsLastChar` | AyurSage.py:102-106 | When the next header with its colon is missing, entry `k` of the result is the stripped text from the content start up to, but not including, the last character of the cleaned reply. The value is a piece of that shortened text. |
| `Formatter.OutOfOrderSectionIsEmpty` | AyurSage.py:102-106 | When the next header comes no later than the content start, entry `k` of the result is empty. |
| `Formatter.LastSectionRunsToEnd` | AyurSage.py:105-106 | The "Things to Avoid" entry of the result is the stripped rest of the cleaned reply, from one character past its header to the end. |
| `Formatter.BlankReplyCleansToEmpty` | AyurSage.py:88 | An empty or whitespace-only reply cleans to the empty text. |
| `Formatter.BlankReplyGivesEmptySections` | AyurSage.py:88-100 | An empty or whitespace-only reply gives the four headers with empty values. |
| `Scenarios.OnlyDiseasesSections` | AyurSage.py:86-108 | For the reply "Possible Diseases: flu.", the values are "flu" and three empty strings. |
| `Scenarios.NoiseRemovalIsSinglePass` | AyurSage.py:88 | Removing the noise is a single pass. When one copy is wedged inside another, removing the inner copy joins the outer text into a new copy, which survives cleaning. |
| `Scenarios.ReplaceSingleMatch` | AyurSage.py:88 | Removing a single match from `x + pat + y` leaves `x + y` when `y` is too short to hold another match. |
| `Prompt.BuildPrompt` | AyurSage.py:62 | The prompt is template text except at the two placeholder positions, which hold the symptoms and the disease verbatim. It is longer than the template text by the inputs' lengths, less the placeholders' lengths. |
| `Prompt.OnlyPlaceholderBraces` | AyurSage.py:23-33 | When the literal text of a template holds no brace, the template's only `{` and `}` are the two of `{symptoms}` and the two of `{disease}`, at the ends of the prefix and the middle. |
| `Prompt.AyurvedicIsPlain` | AyurSage.py:23-58 | The application's template has no brace outside its two placeholders. So `format` finds exactly the fields `symptoms` and `disease`, which the three-piece template model assumes. |
| `Prompt.SplitBuild` | AyurSage.py:62 | Splitting a prompt at its symptoms length recovers the symptoms and the disease. |
| `Prompt.BuildSplit` | AyurSage.py:62 | Every successful split rebuilds the prompt it came from. |
| `Prompt.PromptContainsInputs` | AyurSage.py:32-33 | The prompt contains both inputs verbatim. |
| `Prompt.PromptDeterminesInputs` | AyurSage.py:62 | For symptoms of equal length, two requests give the same prompt if and only if both inputs agree. |
| `Prompt.PromptIsAmbiguous` | AyurSage.py:32-33 | Without that length, different inputs can give the same prompt. Symptoms that contain the "Disease (optional): " line read the same as shorter symptoms with a longer disease. |
| `Submit.Submit` | AyurSage.py:226-237 | The request is rejected with "Please enter at least one symptom." exactly when the symptoms are all whitespace. Otherwise the prompt goes to the service. A reply is shown as its sections; an error is shown as "An error occurred: " followed by the error. |
| `Submit.BlankSymptomsSkipService` | AyurSage.py:227-228 | Blank symptoms never reach the service: the outcome is the same whatever the service would answer. |
| `Submit.OutcomeDependsOnlyOnReply` | AyurSage.py:229-233 | With non-blank symptoms, the outcome depends on the service only through its answer to this one prompt. |

## Left out

- `generate_response`'s HTTP request, JSON payload and status-code handling
  (AyurSage.py:64-83). This is network I/O. `Submit.Submit` takes the service as a
  function from prompt to reply or error. A non-200 status and any other exception
  become that function's error.
- Loading `.env`, reading the API key and stopping when it is missing
  (AyurSage.py:9-16). This is process environment and start-up.
- The prompt-template library's internals. Only the effect of `format` is modelled:
  a single substitution at the two placeholders.
- `display_response`, the page set-up, the CSS, the sidebar, the spinner and the
  success message (AyurSage.py:111-234). These are rendering only.
- The one-section-per-line reply quoted above is not evaluated concretely in
  Dafny. Its values follow from `Formatter.InOrderSection` and
  `Formatter.LastSectionRunsToEnd`.
- `str.replace` with an empty pattern is modelled (`PyStr.InsertEverywhere`), but the
  app only ever removes the non-empty noise text, so no lemma covers it.
- `Submit.Submit` takes the template as a parameter. The page always passes
  `Prompt.Ayurvedic`, and the prompt lemmas hold for every template.
- Lone surrogates. A Python `str` can hold an unpaired surrogate code point
  (U+D800 to U+DFFF), for instance from a `\ud800` escape in the JSON reply, but a
  Dafny `char` cannot. The model covers every reply and input made of Unicode scalar
  values only.
