# MetrixBot message handling in Dafny

MetrixBot is a Telegram bot that stores blood-pressure readings. Its only
real decision logic is in `mbot.py`, and this project models that logic:

- **`parse`** splits a message on single spaces. Digit-only words become the
  numeric `values` and every other word goes to the comment. The number of
  values decides the shape of the reading: none, one, or two and more. The
  first two values must satisfy `MAX_BP > vad > nad > MIN_BP`. A third value
  is kept as the pulse only if `MAX_PULSE > pulse > MIN_PULSE`.
  `parse` returns `(vad, nad, pulse, error_code, comment)`.
- **the word scan of `talk`** lowercases the message and strips `!:),*;-`
  from its two ends. It splits the result on single spaces and scans the
  words in order. The first word found inside either dictionary entry
  decides the reply; for that word the `Hello` entry is tried before the
  `Help` entry.
- **`conversation`** branches on `error_code`:
  - 0 stores the reading and confirms it with `Gotit2` or `Gotit3`;
  - 1 answers with `Check fail`;
  - anything else is handed to `talk`.

  Each branch logs the message under a category.

The limits and the dictionary entries are parameters (`Parsing.Limits`,
`Intents.Dictionary`). The effects are returned as data: writing a
reading, logging a user action and sending a reply
(`Routing.Effect`). They are listed in the order the source performs them.

Files:
- `wrappers.dfy`: `Option`.
- `strings.dfy`: the Python `str` operations used (`split`, `join`, `strip`,
  `lower`, `in`, `isdigit`, `int`).
- `parse.dfy`: `parse` as a loop method, proved equal to `ParseSpec`. The
  lemmas state the shapes of a reading in terms of the message.
- `intent.dfy`: the `talk` scan as a loop method with early return, proved
  equal to `TalkIntent`. One lemma characterises the first match.
- `conversation.dfy`: the `conversation` dispatch (`Route`), its effects,
  and the `Conversation` method that calls `Parse` and `Talk`.

Two behaviours of the source are easy to misread, and the model keeps both
as written:
- The keyword test is `word in <raw entry string>`, a substring test on the
  configured text, not membership in a set of keywords. So a fragment of a
  keyword matches, and the empty word always matches `Hello`.
- A single number gives error code 1, as an out-of-range reading does,
  with `vad` and `nad` left as `None`. There is no separate outcome for a
  message with too few numbers. The model returns `Reject(None, None)`.

The source also never checks that a maximum exceeds its minimum, and the
model does not require it.

## Model

| member | source | states |
|---|---|---|
| `Parsing.Parse` | mbot.py:198-224 | the loop sorting every word into `values` or `others`, followed by the branches on `len(values)`, computes exactly `ParseSpec(message, limits)` |
| `Parsing.Shape` | mbot.py:210-224 | code -1 iff there are no values; code 0 iff at least two values pass `MAX_BP > v0 > v1 > MIN_BP`; code 1 for one value or a failing pair; `vad`/`nad` are present iff there are two values, and then are `values[0]`/`values[1]`, also on rejection; the pulse is `values[2]` iff there are three values and it passes its strict limits; the comment is the others joined by one space |
| `Parsing.PartitionCount` | mbot.py:203-209 | every word lands in exactly one list: `|values| + |others| == |words|` |
| `Parsing.ClassifyAppend` | mbot.py:203-209 | both lists keep message order: classifying `a + b` gives the lists of `a` followed by those of `b` |
| `Parsing.ClassifySources` | mbot.py:205-209 | every comment word is a non-digit word of the message; every value is `int` of a digit-only word of the message |
| `Parsing.NoValuesIff` | mbot.py:206 | there are no values exactly when no word is digit-only |
| `Parsing.OthersAllText` | mbot.py:205-209 | with no digit-only word, the comment words are all the words |
| `Parsing.CommentWords` | mbot.py:224 | the comment splits back into exactly the non-numeric words when there are any, and no piece of it is ever digit-only |
| `Parsing.NoNumbers` | mbot.py:199-211 | error code -1 exactly when no word is digit-only; then `vad`, `nad` and `pulse` are `None` and the comment is the whole message |
| `Parsing.OneNumber` | mbot.py:212-213 | exactly one digit-only word gives code 1 with `vad`, `nad` and `pulse` all `None`, whatever its value |
| `Parsing.ParseOfWords` | mbot.py:198-224 | a message written as space-joined words without spaces parses exactly those words |
| `Parsing.TwoNumbers` | mbot.py:214-219 | the message "s d" gives `vad = s`, `nad = d`, no pulse, empty comment, and code 0 exactly when `MAX_BP > s > d > MIN_BP` (bounds and `s <= d` rejected) |
| `Parsing.ThreeNumbers` | mbot.py:214-222 | the message "s d p" keeps `p` exactly when `MAX_PULSE > p > MIN_PULSE`, and the code is that of "s d" |
| `Parsing.ExtraNumberIgnored` | mbot.py:214-224 | once there are three values, appending any further digit-only word (leading zeros included) changes nothing, not even the comment |
| `Parsing.PulseNeverDecides` | mbot.py:220-222 | the pulse limits never change the error code |
| `Parsing.ExampleReading` | mbot.py:198-224 | "130 85 70 feeling ok" with limits 200/40 and 200/30 parses to 130/85, pulse 70, code 0, comment "feeling ok" |
| `Parsing.ExampleComment` | mbot.py:198-224 | "hi 120 foo 80 bar" parses to 120/80, no pulse, comment "hi foo bar" |
| `Intents.Talk` | mbot.py:251-262 | the lower/strip/split and the loop with early return compute exactly `TalkIntent(message, dict)` |
| `Intents.FirstIntentCharacterized` | mbot.py:252-260 | `Hello` iff the first word matching either entry is inside `Hello`; `Help` iff that first matching word is inside `Help` but not `Hello`; `NoComprene` iff no word matches |
| `Intents.Normalize` | mbot.py:251 | the normalised message always has at least one word |
| `Intents.EmptyWordAlwaysMatches` | mbot.py:251-257 | `NoComprene` only when every normalised word is non-empty: the empty word is inside any entry |
| `Intents.PunctuationOnlyGreets` | mbot.py:251-256 | a message made only of `!:),*;-` (or empty) normalises to `[""]` and gets the `Hello` reply |
| `Routing.Route` | mbot.py:270-284 | the `talk` branch is taken iff there are no values, and then carries the intent `talk` finds; an accepted reading is `values[0]`/`values[1]`, passes the strict blood-pressure test, has `values[2]` as pulse exactly when there is a third value within the pulse limits, and carries the joined text words; two values passing that test are always accepted; a rejection shows `values[0]`/`values[1]` when there were two values and nothing otherwise |
| `Routing.Effects` | mbot.py:271-285 | a reading is written iff the decision is to accept, exactly once and first; exactly one reply is sent: `Gotit2` without pulse, `Gotit3` with it, `Check fail` with the shown values on rejection, and the greeting, help text or `Nocomprene` for the three intents; the message is logged under `data_accepted`, `data_rejected` or `talk`, exactly once, before the reply for a reading or a rejection and last after `talk`; no other effect happens except that help first logs the `/help` command, as `helpme` does (mbot.py:98-101) |
| `Routing.Conversation` | mbot.py:265-286 | parsing, then branching on the code and calling `talk` computes exactly `Effects(Route(message, limits, dict), message)` |
| `Routing.NoNumbersTalk` | mbot.py:281-283 | a message goes to `talk` exactly when none of its words is digit-only, and then the reply is the intent of `talk` |
| `Routing.OneNumberRejected` | mbot.py:278-280 | a single digit-only word gives `Check fail` with nothing to show: `Reject(None, None)` |
| `Routing.AcceptedIff` | mbot.py:271-277 | stored iff there are two values and the first two pass the strict test; the reply is `Gotit2` without pulse and `Gotit3` with it; a kept pulse is within its limits |
| `Routing.TwoNumbersRouted` | mbot.py:270-280 | "s d" is stored as s/d when `MAX_BP > s > d > MIN_BP` and otherwise rejected showing s and d |
| `Routing.ThreeNumbersRouted` | mbot.py:270-277 | for a valid s/d, "s d p" is stored, with `p` exactly when it is inside its limits: a bad pulse is dropped, never rejected |
| `Routing.ExampleCommentRouted` | mbot.py:270-277 | "hi 120 foo 80 bar" is written as 120/80 without pulse and with comment "hi foo bar", logged as `data_accepted`, and confirmed with `Gotit2` |
| `Routing.ExampleConversation` | mbot.py:270-277 | "130 85 70 feeling ok" is written as 130/85/70 with comment "feeling ok", logged as `data_accepted`, and confirmed with `Gotit3` |
| `Strings.Split` | mbot.py:200 | `split(' ')` never returns an empty list, and no piece contains the separator |
| `Strings.JoinSplit` | mbot.py:200 | joining the pieces of a split gives the original text back |
| `Strings.SplitJoin` | mbot.py:224 | splitting the join of a non-empty list of separator-free pieces (empty pieces allowed) gives the pieces back |
| `Strings.SplitConcat` | mbot.py:200 | splitting `a + sep + b` gives the pieces of `a` followed by those of `b` (empty pieces kept) |
| `Strings.Strip` | mbot.py:251 | `strip` keeps one contiguous slice; everything cut at either end is in the strip set, and neither end of the slice is |
| `Strings.Lower` | mbot.py:251 | capital letters become their small letters, every other character (spaces and the strip characters among them) is unchanged, and no capital letter is left |
| `Strings.LowerIdempotent` | mbot.py:251 | lowering twice is lowering once |
| `Strings.ContainsAt` | mbot.py:253 | `w in s` holds exactly when `w` occurs at some position of `s` |
| `Strings.DecimalRoundTrip` | mbot.py:206-207 | `str(n)` is digit-only, has no space, and `int(str(n)) == n` |
| `Strings.LeadingZero` | mbot.py:207 | a leading zero does not change `int` of a digit string |

## Left out

- Telegram transport: the `start` and `helpme` handlers as I/O, handler registration, polling and the error handler (mbot.py:78-101, 288-305). `helpme` appears only as its effects inside `talk`: logging `/help` and sending the help text.
- InfluxDB: client setup, `store_user_action`, `write_data`, `del_last`, `del_all` and the query templates (mbot.py:51-74, 162-191, 227-239). Writing a reading and logging an action are returned as `Routing.Effect` values.
- `save` (CSV export) and `grafana` (HTTP fetch and image file) are file and network I/O (mbot.py:104-156).
- Configuration loading and reloading (`read_ini`, the global `config`): the limits and the two dictionary entries are parameters.
- Reply formatting with `str.format`: a reply is a template tag with the numbers it is formatted with. The user's first name in the `Hello` reply, the user id and the chat id are transport data and are not modelled.
- Logging setup and the console output in `start` and `grafana`.
- Strings.IsDigits: accepts only ASCII '0'..'9'. Python's `str.isdigit` also accepts other Unicode digits, with two outcomes the model does not capture. Non-ASCII decimal digits (Arabic-Indic `١٢٠`, fullwidth `１２０`) are read by `int()`, so in the source "١٢٠ ٨٠" is an accepted 120/80 reading; here those words are text and the message goes to `talk`. Digits that are not decimal (`²`, `①`) pass `isdigit` but make `int()` raise `ValueError`, ending the handler without a reply; here those words are text.
- Strings.Lower: folds only ASCII 'A'..'Z'. Python's `str.lower` is Unicode-aware.
- Routing.Effects: lists the effects as if each one succeeds. In the source a failing database write or action log raises and stops the effects after it. For example, `store_user_action` concatenates `user.last_name` (mbot.py:71), which is `None` for a user without a last name. The resulting `TypeError` at mbot.py:277 means a stored reading gets no `Gotit` reply, and the one at mbot.py:98 means the help text is never sent. "Exactly one reply is sent" therefore holds only when the earlier effects succeed.
