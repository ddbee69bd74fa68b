# WhatsApp trial-class chatbot: webhook helpers and schedule query

A Dafny model of the logic in a small WhatsApp chatbot prototype for booking
trial gym classes. The code has two parts.

* **WhatsApp helpers** (`app/whatsapp/whatsapp_utils.py`):
  * `process_text_for_whatsapp` deletes `【…】` citation segments, strips the
    text and turns Markdown `**bold**` into WhatsApp `*bold*`;
  * `get_text_message_input` builds the outbound text-message record;
  * `generate_response` upper-cases the reply;
  * `is_valid_whatsapp_message` checks an incoming webhook body;
  * `process_whatsapp_message` pulls the sender and the text out of a webhook
    body and builds the reply.
* **Schedule** (`app/schedule/schedule.py`, and the byte-identical copy
  `src/schedule/schedule.py`): `ScheduleManager` keeps the class table read
  from a CSV file. `check_availability` asks whether some row offers a class
  at a date and time with `availability == True`.

The repository's planning documents also describe reservation holds,
capacity counters, calendar bookings and a conversation state machine. None
of these exists in the code, so the model follows the code and leaves them
out.

Files:

* `wrappers.dfy` (`Wrappers`): `Option` for Python's `None`, `Result` for a
  raised exception.
* `json_value.dfy` (`PyJson`): a decoded JSON value and Python's truth value.
  It also has the three lookups the helpers use (`d.get(k)`, `v[k]`, `v[0]`),
  with the `KeyError`, `IndexError`, `TypeError` and `AttributeError` they
  raise.
* `whatsapp_text.dfy` (`WhatsAppText`): the text rewrite. The two `re.sub`
  calls become scanners for their fixed patterns:
  * the lazy `.*?` stops at the first closing delimiter;
  * `.` does not match a newline;
  * a failed attempt keeps one character and scanning resumes at the next.
* `whatsapp_message.dfy` (`WhatsAppMessage`): the payload record, the reply
  text, the validator and the reply path.
* `schedule.dfy` (`Schedule`): the table as a sequence of rows. The query is
  the row-mask selection followed by an emptiness test. `ScheduleManager` is
  a class whose two fields are `const`: the constructor sets the table once,
  and `CheckAvailability` and `GetSchedule` leave it unchanged.

The two schedule files are identical. One module models both, and the table
below cites either copy.

## Model

| member | source | states |
|---|---|---|
| `WhatsAppText.CiteClose` | app/whatsapp/whatsapp_utils.py:97-98 | the citation match ends at the first `】` after the `【` if no newline comes first; otherwise every later `】` lies past a newline and the attempt fails |
| `WhatsAppText.CloseNeedsSameLine` | app/whatsapp/whatsapp_utils.py:97-98 | if every `】` lies past a newline, the citation match fails |
| `WhatsAppText.StripCitations` | app/whatsapp/whatsapp_utils.py:97-100 | the first pass never makes the text longer |
| `WhatsAppText.CitationDeleted` | app/whatsapp/whatsapp_utils.py:97-100 | a segment `【x】`, with `x` on one line and free of `】`, is deleted together with both delimiters |
| `WhatsAppText.PlainPrefixKept` | app/whatsapp/whatsapp_utils.py:97-100 | text before the first `【` is copied unchanged |
| `WhatsAppText.WithoutCitationsUnchanged` | app/whatsapp/whatsapp_utils.py:97-100 | text without `【` passes the first pass unchanged |
| `WhatsAppText.UnclosedKept` | app/whatsapp/whatsapp_utils.py:97-100 | deleting segments never brings a `】` onto the first line |
| `WhatsAppText.NoCitationLeft` | app/whatsapp/whatsapp_utils.py:97-100 | after the first pass, no `【` is followed by a `】` on the same line |
| `WhatsAppText.CitationFreeUnchanged` | app/whatsapp/whatsapp_utils.py:97-100 | text holding no citation segment passes the first pass unchanged |
| `WhatsAppText.StripCitationsIdempotent` | app/whatsapp/whatsapp_utils.py:97-100 | deleting citations twice gives the same text as doing it once |
| `WhatsAppText.TrimStart` | app/whatsapp/whatsapp_utils.py:100 | the result is a suffix of the input; it does not start with white space, and every character dropped is white space |
| `WhatsAppText.TrimEnd` | app/whatsapp/whatsapp_utils.py:100 | the result is a prefix of the input; it does not end with white space, and every character dropped is white space |
| `WhatsAppText.Strip` | app/whatsapp/whatsapp_utils.py:100 | `str.strip()`: the result is a middle slice of the input with only white space cut off either side, with no white space at either edge; it is empty only for all-white-space input |
| `WhatsAppText.BoldClose` | app/whatsapp/whatsapp_utils.py:102-103 | the bold group ends at the first `**` after the opening `**`, with no newline and no `**` before it; otherwise the attempt fails |
| `WhatsAppText.BoldCloseAt` | app/whatsapp/whatsapp_utils.py:102-103 | when the first `**` comes before any newline, the bold group ends exactly there |
| `WhatsAppText.Bold` | app/whatsapp/whatsapp_utils.py:102-109 | the second pass never makes the text longer and keeps its first and last characters |
| `WhatsAppText.BoldPair` | app/whatsapp/whatsapp_utils.py:102-109 | `**x**` becomes `*x*` with the inner text verbatim, when `x` is on one line with no `**` inside and no trailing `*` |
| `WhatsAppText.BoldPlainPrefix` | app/whatsapp/whatsapp_utils.py:102-109 | text without `*` before the rest is copied unchanged |
| `WhatsAppText.NoBoldUnchanged` | app/whatsapp/whatsapp_utils.py:102-109 | text without `**` passes the second pass unchanged |
| `WhatsAppText.TwoRemovedPerMatch` | app/whatsapp/whatsapp_utils.py:105-109 | each replacement removes exactly two characters, and nothing else is removed |
| `WhatsAppText.ProcessTextForWhatsApp` | app/whatsapp/whatsapp_utils.py:86-111 | the output is no longer than the input, and it neither starts nor ends with white space |
| `WhatsAppText.PassThrough` | app/whatsapp/whatsapp_utils.py:97-111 | input with no `【` and no `**` comes back only stripped |
| `WhatsAppMessage.TextMessageInput` | app/whatsapp/whatsapp_utils.py:20-37 | `to` is the recipient and `text.body` the text; `messaging_product`, `recipient_type`, `type` and `preview_url` hold their constants whatever the inputs |
| `WhatsAppMessage.OutboundTextRoundTrip` | app/whatsapp/whatsapp_utils.py:30-36 | every record with those constants is the one built from its own `to` and body |
| `WhatsAppMessage.GenerateResponse` | app/whatsapp/whatsapp_utils.py:40-42 | same length; no lower-case letter is left; each lower-case letter becomes its capital; every other character is unchanged |
| `WhatsAppMessage.GenerateResponseIdempotent` | app/whatsapp/whatsapp_utils.py:40-42 | upper-casing twice is upper-casing once |
| `WhatsAppMessage.IsValidWhatsAppMessage` | app/whatsapp/whatsapp_utils.py:143-159 | truthy iff `object` is truthy, `entry[0].changes[0].value` is reached through lists of dicts, and `messages[0]` exists and is truthy; false without any exception when `object` is falsy; with a truthy `object`, an exception is raised iff some container on the path has the wrong type |
| `WhatsAppMessage.ProcessWhatsAppMessage` | app/whatsapp/whatsapp_utils.py:123-139 | succeeds iff every lookup finds a value of the type the next step needs; the reply then goes to `contacts[0].wa_id` and carries the upper-cased `messages[0].text.body` |
| `WhatsAppMessage.ValidationGap` | app/whatsapp/whatsapp_utils.py:123-159 | a body the validator accepts whose change value has no `contacts` makes the reply path raise `KeyError` |
| `WhatsAppMessage.ContactlessWebhookAccepted` | app/whatsapp/whatsapp_utils.py:152-159 | such a body exists: a text message with no contact is accepted |
| `WhatsAppMessage.AnswerableIsValid` | app/whatsapp/whatsapp_utils.py:128-159 | every body the reply path can answer passes the validator, given a truthy `object` |
| `WhatsAppMessage.ReplyToSender` | app/whatsapp/whatsapp_utils.py:123-139 | the reply is an outbound text to the sender's `wa_id`, as long as the message text, with no lower-case letter |
| `Schedule.Available` | app/schedule/schedule.py:19-24 | the selected rows are exactly the table rows with matching class, date and time and `availability == True` |
| `Schedule.LoadSchedule` | app/schedule/schedule.py:8-15 | a missing file gives the column-less fallback table, and a read file gives its rows |
| `Schedule.ScheduleManager.constructor` | app/schedule/schedule.py:4-6 | the stored table is the loaded one and the path is kept |
| `Schedule.ScheduleManager.CheckAvailability` | app/schedule/schedule.py:17-25 | true iff some row has the class, date and time asked for and `availability == True`; requires a loaded table, where Python raises `KeyError` on the column-less fallback |
| `Schedule.ScheduleManager.GetSchedule` | app/schedule/schedule.py:27-29 | returns exactly the table stored at construction |
| `Schedule.AvailableAppend` | src/schedule/schedule.py:19-24 | selecting from two concatenated tables is concatenating their selections |
| `Schedule.AppendedRows` | src/schedule/schedule.py:19-25 | after rows are appended, the answer is true iff it was true before or an appended row matches; an answer never turns from true to false |
| `Schedule.AvailableCount` | app/schedule/schedule.py:19-24 | every selected row appears in the selection as often as in the table, and no other row appears |
| `Schedule.RowOrderIrrelevant` | src/schedule/schedule.py:19-25 | reordering the table reorders the selection and leaves the answer unchanged |
| `Schedule.NoneSelected` | app/schedule/schedule.py:23-25 | a table with no available row selects nothing |
| `Schedule.UnavailableRowsIgnored` | src/schedule/schedule.py:23-25 | rows whose availability is not `True` never change the selection, wherever they are inserted |

## Left out

- `send_message` and `log_http_response` (app/whatsapp/whatsapp_utils.py:13-17, 45-83): HTTP requests, Flask configuration and logging. `process_whatsapp_message` is modelled up to the record it passes to `send_message`.
- `json.dumps`: the payload is the record that gets serialised, not its JSON text.
- GenerateResponse: maps only ASCII `a`-`z` to capitals. Python's `str.upper` also maps other scripts, and can change the length (`ß` becomes `SS`).
- PyJson.Json: JSON numbers are integers and are kept exactly. A number's value reaches the reply only as a numeric `wa_id`; everywhere else only its truth value is used. Floats are not modelled.
- The `print` calls in `process_whatsapp_message` (app/whatsapp/whatsapp_utils.py:126) and in `load_schedule` (app/schedule/schedule.py:14): output only. The profile-name lookup the first one uses is modelled, because it can raise.
- CheckAvailability: after a missing file, Python raises `KeyError` at app/schedule/schedule.py:20 on the column-less fallback table; the model requires a loaded table instead of modelling that exception.
- The default argument `csv_path="data/schedule.csv"` of the `ScheduleManager` constructor (app/schedule/schedule.py:4) is not modelled: the constructor always takes the path.
- IsValidWhatsAppMessage: returns the truth value of what the `and` chain returns, not the returned value itself. That truth value is all a caller can test.
- The regex engine in general: only the two fixed patterns are modelled, as scanners.
- `pd.read_csv` and CSV parsing: the constructor is given the outcome of the read, either the parsed rows or `FileNotFoundError`. Other read errors, and a CSV file that lacks one of the four columns, are not modelled.
- Schedule.Row: the `class_type`, `date` and `time` cells are strings, and the query arguments are strings. pandas type inference for those columns, and missing values in them, are not modelled.
- Schedule.EqualsTrue: the `availability` cell compares equal to `True` when it is the boolean `True` or the integer `1`. Float cells are not modelled.
- The `__main__` demos in both schedule files (lines 31-39), the Flask app factory in app/__init__.py and the test route in webhook-test.py: these hold no logic beyond web plumbing and printing.
- The commented-out OpenAI lines (app/whatsapp/whatsapp_utils.py:7, 134-138): not executed code.
