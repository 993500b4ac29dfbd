# Retrieval chat endpoint: request pipeline and client string helpers

A Dafny model of the pure logic inside a retrieval-augmented question-answering
app for a video course. The server (`app.py`) takes a user question, ranks
precomputed subtitle chunks by similarity, asks a generator for an answer and
returns it with citations. The browser (`static/chat.js`) labels each citation
with its start time and HTML-escapes every text it shows.

Modules, one per concern:

- `Results` (`results.dfy`): `Option` and `Result`. `Err` carries the text of a raised exception.
- `Text` (`text.dfy`): decimal rendering and parsing, Python `strip()` and
  JavaScript `trim()` whitespace, `s[:n]`, `padStart` and `split`.
- `Ranking` (`ranking.dfy`): top-K selection over a score vector.
  `IsTopK` is the specification: `min(K, n)` distinct indices, non-increasing
  scores, and nothing left out scoring higher. `TopK` implements it as an
  insertion sort of the indices followed by a prefix.
- `Answer` (`answer.dfy`): JSON values, Python truthiness, and picking the
  answer out of the generator's reply.
- `Sources` (`sources.dfy`): corpus rows, matches and citation entries:
  snippet truncation and the optional deep link.
- `ChatPipeline` (`chat.dfy`): the `chat()` handler as a function of the
  request, the corpus and what the upstream services return. It yields the
  reply and the ordered list of outbound calls made.
- `Client` (`client.dfy`): `formatTime`, `sanitize`/`escapeHtml` with an
  entity decoder as the partner, and the submit guard.

Services are inputs. The embedding call, the similarity computation and the
generator call appear in `Upstream` as outcomes: success or raised error.
Similarity scores are reals. Python's `str()` of the generator reply is the
parameter `render`. The video URL base is a parameter. Its shipped value is the
constant `VIDEO_URL_BASE = ""`.

Behaviours of the code worth knowing, all modelled as written:

- Every upstream failure replies with status 500.
- Similarity failures get their own message: `Similarity computation failed: ...`.
- The deep link's seconds come from `int(start)`, which truncates toward zero.
  For the non-negative start times a corpus holds this is the floor.
- Ties in score have no guaranteed order. `argsort`'s default sort is not
  stable, and the result is reversed. The model specifies only non-increasing
  order. `TopKScoresUnique` proves that the score sequence is the same under
  any tie order.
- Answer fields are tested by Python truthiness. An empty string, `0`, `[]` or
  `{}` under `response` falls through to `text`, then to `output`, then to
  `str(resp)`.
- A citation gets a link only when the base URL is non-empty and the row's
  number is not `None`. A `None` number is shown as the text `"None"`.

## Model

| member | source | states |
|---|---|---|
| `ChatPipeline.Message` | app.py:54-56 | the stripped message is empty exactly when the received message, with a missing one read as `""`, is all Python whitespace |
| `ChatPipeline.Chat` | app.py:53-131 | a blank message gives 400 `Empty message` with no outbound call, and only a blank message does; otherwise the embedding call comes first, with the stripped message; the generator is called at most once, and only after embedding and similarity succeeded; each failure gives 500 with its own message; status 200 exactly when every step succeeded, with `min(TOP_K, corpus size)` sources |
| `ChatPipeline.ChatSuccess` | app.py:74-131 | when the message is not blank and all three upstream steps succeed (exactly the status-200 case), the reply cites exactly the matches the generator was shown, in order; those matches are a top-K answer for the scores; the answer is the one extracted from the reply |
| `ChatPipeline.BlankMessageRefused` | app.py:55-57 | the message `"   "` gives `{"error": "Empty message"}` with 400 and no outbound call |
| `ChatPipeline.Respond` | app.py:74-131 | once the scores are known: the generator is called after the embedding call with the top-K matches and the stripped message; a generator failure gives 500 `Inference failed: ...`; otherwise 200 with the extracted answer and one citation per match |
| `ChatPipeline.SelectMatches` | app.py:75-77 | `min(k, corpus size)` matches; their indices form a top-K answer; each carries its own corpus row and its own score `sims[i]` |
| `ChatPipeline.TopKUniqueWithoutTies` | app.py:75 | when no two scores are equal, there is only one top-K answer |
| `ChatPipeline.TwoBestOfThree` | app.py:75 | for scores 1.0, 0.0 and 0.994 with K = 2, the only answer is rows 0 then 2 |
| `Ranking.TopK` | app.py:75 | `argsort()[::-1][:K]` gives a top-K answer: `min(K, n)` distinct in-range indices in non-increasing score order, with no left-out index scoring above a selected one |
| `Ranking.Insert` | app.py:75 | inserting into a descending index list keeps it descending, adds exactly the new index to the multiset, and keeps the indices distinct |
| `Ranking.SortByScore` | app.py:75 | the sorted list is a permutation of the input, in descending score order, and distinct when the input is |
| `Ranking.PrefixOfSortedPermutation` | app.py:75 | the first `min(K, n)` entries of a descending permutation of all indices form a top-K answer |
| `Ranking.TopKScoresUnique` | app.py:75-77 | any two top-K answers give the same score at every position, so the attached scores do not depend on tie order |
| `Answer.FirstTruthy` | app.py:100 | Python's `a or b or c` over the reply's fields gives the value of the first key whose value is truthy, with all earlier ones falsy; it gives nothing exactly when every value is falsy |
| `Answer.ExtractAnswer` | app.py:99-102 | for a dict reply, the first truthy value among `response`, `text` and `output`, in that order; for a reply where none is truthy, or one that is not a dict, `str(resp)` |
| `Answer.AnswerSource` | app.py:99-102 | the answer is either `str(resp)` or a truthy value stored under one of the three answer keys |
| `Answer.ResponseFieldExample` | app.py:100 | the reply `{"response": "Go to video 3 at 02:15"}` gives exactly that text |
| `Answer.EmptyResponseSkipped` | app.py:100 | an empty `response` string is skipped for a truthy `text` |
| `Sources.Trunc` | app.py:120 | `int(x)` on a float truncates toward zero: the result is within one of `x`, on the zero side |
| `Sources.NumberText` | app.py:123 | the number field shows the number's rendering, or `"None"` when it is `None` |
| `Sources.VideoLink` | app.py:117-120 | the link is absent exactly when the base URL is empty or the number is `None`; otherwise it is `base + number + "#t="` followed by the decimal rendering of `int(start)` (no leading zero, a `-` only for a negative value), which reads back as `int(start)`, also as the integer after the link's last `=` |
| `Sources.Snippet` | app.py:126 | a prefix of the text, at most 300 characters long; the whole text when that is no longer; exactly 300 characters otherwise |
| `Sources.SourceOf` | app.py:121-129 | a citation copies the title, times and score; it shows the number's text, `"None"` for a `None` number; its snippet is a prefix of at most 300 characters, the whole text when short; its link is absent exactly when the base or the number is, and otherwise is the deep link `VideoLink` builds |
| `Sources.SourcesOf` | app.py:115-129 | one citation per match, in match order |
| `Sources.ShippedConfigurationHasNoLinks` | app.py:19 | with the shipped empty base URL no citation has a link |
| `Text.Strip` | app.py:55 | stripping cuts only whitespace from both ends, leaves non-whitespace ends, and gives the empty string exactly when the input is all whitespace |
| `Text.Prefix` | app.py:126 | `s[:n]` is a prefix of `s` of length `min(|s|, n)` |
| `Text.ParseIntToString` | app.py:120 | the decimal rendering of an integer reads back as that integer |
| `Text.ParseNatToString` | static/chat.js:63-64 | `String(n)` of a natural number reads back as `n` |
| `Text.PadStart` | static/chat.js:63-64 | `padStart(w, c)` gives length `max(|s|, w)`, ends with `s`, and is preceded only by `c` |
| `Client.PartsOf` | static/chat.js:60-62 | hours, minutes and seconds satisfy `h*3600 + m*60 + s == n` with `m` and `s` below 60; there are hours exactly from 3600 seconds on |
| `Client.TwoDigits` | static/chat.js:63-64 | the two-digit padding of a number below 100 is two characters long and reads back as the number |
| `Client.ClockText` | static/chat.js:60-64 | a label ends with `:` and the two-digit seconds `n % 60`; its full field layout is stated by `Client.ClockTextFields` and its meaning by `Client.ParseClockText` |
| `Client.ClockTextFields` | static/chat.js:63-64 | from one hour on the label has the fields hours, two-digit minutes and two-digit seconds; below an hour it has unpadded minutes and two-digit seconds, with no hour field |
| `Client.ParseClockText` | static/chat.js:59-64 | reading a label back gives its number of seconds |
| `Client.WholeSeconds` | static/chat.js:59 | zero for a missing value, otherwise the largest whole number not above `sec` |
| `Client.FormatTime` | static/chat.js:58-65 | the label reads back as the floored seconds; a missing value, and anything below one second, gives `"0:00"` |
| `Client.ClockTextInjective` | static/chat.js:58-65 | different whole numbers of seconds get different labels |
| `Client.EscapeChar` | static/chat.js:69 | the replacement of a character starts with `&` exactly when the character is one of the five; it contains no `<`, `>`, `"` or `'`, and no `&` after its first character |
| `Client.Encode` | static/chat.js:69 | the encoding is never shorter than the input; it equals the input when the input has none of the five characters, and has the same length only then; it contains no `<`, `>`, `"` or `'` |
| `Client.Sanitize` | static/chat.js:67-70 | `sanitize("")` is `""`; the output contains no `<`, `>`, `"` or `'`; it equals the input exactly when the input has none of the five characters; every `&` in it begins one of the five entities; the entity decoder gives back the input |
| `Client.EscapeHtml` | static/chat.js:72 | `escapeHtml` is `sanitize`, and decodes back to its input |
| `Client.EncodeStartsEntities` | static/chat.js:69 | every `&` in the encoding begins `&amp;`, `&lt;`, `&gt;`, `&quot;` or `&#039;` |
| `Client.UnescapeEncode` | static/chat.js:69 | decoding the entities of the encoding gives back the input |
| `Client.SanitizeInjective` | static/chat.js:67-70 | different strings are encoded differently |
| `Client.Submit` | static/chat.js:74-77 | the handler sends nothing exactly when the input is all JavaScript whitespace; otherwise it sends a non-empty slice of the input with non-whitespace ends and only whitespace cut off |
| `Client.WhitespaceDifference` | static/chat.js:76 | the characters Python strips but JavaScript keeps are U+001C to U+001F and U+0085 |
| `Client.SentButRefused` | static/chat.js:76-77 | if the server refuses a message the browser sent as blank, the message begins and ends with one of those characters |
| `Client.SentButRefusedExample` | static/chat.js:76-77 | a lone U+001C is sent by the browser and refused by the server as empty |

## Left out

- Flask routing, `request.get_json`, `jsonify`, templates and static files
  (app.py:48-50, 134-140). The model's message is `Option<string>`. A payload
  that is not a dict, or a message that is not a string, is not modelled.
- `create_embedding` and `inference` (app.py:29-46). These are HTTP calls. The model takes
  their outcomes as inputs (`Upstream`) and records only that they were made.
- Loading the corpus with `joblib` and the file check (app.py:22-27). This is I/O.
  The corpus is a given sequence of `Chunk`s without embedding vectors.
- `np.vstack` and `cosine_similarity` (app.py:68-69). This is floating-point
  library code. The scores are a given `seq<real>`. `Chat` requires one score
  per corpus row, as `cosine_similarity` always returns.
- Prompt text (app.py:80-87). It is built by pandas serialisation and a fixed
  free-text template. The generator call records only the matches and the
  question the prompt is built from.
- The debug writes to `prompt.txt` and `response.txt` (app.py:89-93, 108-112).
  Their failures are swallowed, so they do not affect the reply.
- `str(resp)`, `str(e)` and `float(...)`. They are given as the `render`
  parameter and as error strings. Floats are reals with no NaN or infinity.
- DOM updates, `fetch`, the typing indicator and scrolling
  (static/chat.js:1-56, 78-101). The newline-to-`<br/>` step of `addBotMessage` is also left out.
- Ranking.TopK: the order among equal scores is not specified. The code does not fix one.
- Client.FormatTime: requires a non-negative time. JavaScript's `%` on
  negative numbers, and NaN, are not modelled.
- Client.Sanitize: takes strings only. The falsy non-string inputs (`null`,
  `undefined`, `0`) and `String()` of other values are not modelled.
