# FaceCloud message extraction, in Dafny

FaceCloud turns an exported Facebook Messenger conversation (an HTML file) into a word cloud.
This project models the part that decides which text reaches the word cloud, from
`facecloud.py`:

- **Participant names.** `getMessageText` reads the list of participants either from the
  participants div (`Participants: ...`) or from the page title. It splits the list with
  `re.split(",|and", ...)`, strips each piece and keeps the first word of each piece.
- **Notification filter.** A message is dropped when the pattern
  `(You|<names>) (sent) (a|an) (photo|sticker|attachment|GIF|link)` occurs anywhere in it.
- **Cleaning.** Every `https` is removed from each message that is kept.
- **Aggregation.** The kept messages are appended to the text in order, each after a newline.
- **`_getDivText`.** For one message container it skips the first following div, then takes
  the text of the first later div whose text is not empty.
- **Command line.** The `__main__` block checks that there are at least three arguments. It then
  reads the remaining `key=value` tokens into the keyword arguments of the word cloud.

The HTML parser is replaced by what it returns:

- the text of the participants div;
- the text of the `<title>`;
- for each message container, the texts of the divs that follow it in document order.

Files:

- `wrappers.dfy`: `Option` and `Result`.
- `pystr.dfy` (module `PyStr`): the Python string operations the extractor relies on, each with
  a contract that characterises it:
  - `str.isspace`, `str.strip()`, `str.split(sep)`, `s.split(' ')[0]`;
  - `re.split(",|and", s)`;
  - `re.search` and `re.sub` for patterns without metacharacters.
- `facecloud.dfy` (module `FaceCloud`):
  - name derivation and the notification filter as functions;
  - `_getDivText` as the method `DivText`, with its `while` loop;
  - `getMessageText` as the method `GetMessageText`. It derives the names, then runs its loop
    over the containers, which is the method `CollectText`. The inner loop over the ignored
    words is the method `RemoveIgnoredWords`.
  - Each method is proved against a specification function: `MessageDiv`, `Clean` and
    `Aggregate`. Lemmas state what those functions guarantee.
- `commandline.dfy` (module `CommandLine`): the `__main__` argument handling as the method
  `ParseCommandLine`, with its loop filling the keyword arguments.

Behaviour of the code as written, which the model keeps:

- **Stop at the first newline.** The participants pattern `(.*)` stops at the first newline,
  so only the first line of the participants div is used as the list.
- **Any `and` splits.** The list is split at every occurrence of `and`, not only at the word
  "and". A first name such as "Sandra" is therefore cut in two. No derived name ever contains
  `and` (`FaceCloud.DeriveNames`).
- **Single pass.** `re.sub` removes occurrences in one left-to-right pass, so a new `https` can
  form where two halves meet (`FaceCloud.SinglePassExample`).
- **Exactly one `=`.** `k,v = r.split('=')` fails for a token with no `=` and also for a token
  with two or more, such as `stopwords=a=b`. The model follows the code.
- **Last value wins.** A key given twice keeps the value of its last token.
- **No `names` argument.** The usage text (`facecloud.py:2`) lists a positional `names`
  argument, but the code never reads one. `sys.argv[3]` is the first `key=value` option
  (`facecloud.py:148-151`), so a names list without exactly one `=` stops the script. The model
  follows the code.

## Model

| member | source | states |
|---|---|---|
| PyStr.Search | facecloud.py:93 | a literal search succeeds exactly when the pattern occurs somewhere in the text |
| PyStr.Split | facecloud.py:151 | `split(sep)` yields at least one piece, no piece holds the separator, and joining the pieces with it gives back the text |
| PyStr.SplitCount | facecloud.py:151 | `split(sep)` yields one piece more than the text has separators |
| PyStr.FirstPiece | facecloud.py:75 | `split(' ')[0]` is the prefix of the text up to, and not including, its first space |
| PyStr.FirstPieceIs | facecloud.py:75 | that prefix is unique: any prefix without a space followed by a space or the end is it |
| PyStr.Strip | facecloud.py:74 | `strip()` returns the slice left after removing whitespace at both ends; it is empty or starts and ends with non-whitespace |
| PyStr.StripIs | facecloud.py:74 | the stripped slice is unique: any slice with only whitespace around it and non-whitespace at both ends is it |
| PyStr.SplitCommaAnd | facecloud.py:74 | `re.split(",\|and", s)` yields at least one piece; no piece holds a comma or `and`; the first piece is a prefix of the text |
| PyStr.SplitCommaAndRejoin | facecloud.py:74 | putting the pieces back together with the separators found between them gives back the text |
| PyStr.SplitCommaAndPlain | facecloud.py:74 | text in which no separator starts joins the first piece |
| PyStr.SplitCommaAndSeparator | facecloud.py:74 | a separator at the start gives an empty first piece |
| PyStr.SplitCommaAndWhole | facecloud.py:74 | a text in which no separator starts is one piece |
| PyStr.SplitCommaAndPieces | facecloud.py:74 | a piece with no separator inside it, then a separator, comes out as a piece of its own |
| PyStr.SeparatorsOf | facecloud.py:74 | the separators found are all `,` or `and`, one fewer than the pieces |
| PyStr.RemoveAll | facecloud.py:95 | `re.sub(w, '', s)` shrinks the text by `len(w)` for each occurrence found scanning left to right |
| PyStr.RemoveAllUnchangedIff | facecloud.py:95 | `re.sub(w, '', s)` leaves the text unchanged exactly when `w` does not occur in it |
| PyStr.RemoveAllPlain | facecloud.py:95 | removal passes over a prefix in which no occurrence starts |
| PyStr.RemoveAllAbsent | facecloud.py:95 | text without an occurrence is unchanged |
| FaceCloud.NameList | facecloud.py:65-71 | with the `Participants:` prefix, the list is the rest of the first line; otherwise it is the title |
| FaceCloud.NameListOf | facecloud.py:66-68 | a participants text made of the prefix and a one-line list gives that list |
| FaceCloud.FirstName | facecloud.py:74-75 | a first name is a slice of its piece, holds no space, and is empty or starts with a non-blank character |
| FaceCloud.FirstNameIs | facecloud.py:74-75 | the first name is the run from the first non-blank character to the next space or the end of the stripped piece |
| FaceCloud.DeriveNames | facecloud.py:65-75 | one name per piece of the split list, each a slice of its piece, with no space, comma or `and` in it |
| FaceCloud.FirstNameKeepsOut | facecloud.py:74-75 | a first name holds no comma and no `and` that its piece does not hold |
| FaceCloud.ParticipantsExample | facecloud.py:65-75 | "Participants: Annie Saxberg, Keziah Milligan and Susanna Hotham" gives the names Annie, Keziah and Susanna |
| FaceCloud.ThreeNames | facecloud.py:65-75 | a one-line list that splits into three pieces gives the first names of those three pieces, in order |
| FaceCloud.SplitThree | facecloud.py:74 | three pieces joined by two separators split back into those three pieces |
| FaceCloud.IsIgnored | facecloud.py:81-84 | the filter drops a message exactly when some expansion `<subject> sent <a\|an> <kind>` occurs in it, for subject `You` or a derived name |
| FaceCloud.SearchSubjects | facecloud.py:82-84 | trying each alternative of the first group finds the pattern exactly when one of its expansions occurs |
| FaceCloud.WithoutSentAIsKept | facecloud.py:82-84 | a message in which ` sent a` does not occur is always kept |
| FaceCloud.PhraseHasSentA | facecloud.py:83 | every expansion of the pattern holds ` sent a` right after its subject |
| FaceCloud.NotificationExamples | facecloud.py:82-84 | "Jane sent a photo." is dropped for participant Jane; "Jane sent the documents." is not |
| FaceCloud.Clean | facecloud.py:94-95 | removing the ignored words shortens a message by five characters per `https` removed; a message is unchanged exactly when it holds no `https` |
| FaceCloud.CleanOnce | facecloud.py:94-95 | a message with one `https` found by the scan, and none after it, loses exactly those five characters |
| FaceCloud.SinglePassExample | facecloud.py:94-95 | `hthttpstps` becomes `https`: the removal is one pass and can leave an `https` behind |
| FaceCloud.RemoveIgnoredWords | facecloud.py:94-95 | the inner loop's result is the cleaned message |
| FaceCloud.MessageDivIsFirstText | facecloud.py:101-117 | for `MessageDiv`: the message text exists exactly when some div after the first has text; it is the first such text |
| FaceCloud.DivText | facecloud.py:109-117 | the forward walk from the second div returns the message text, or none when it runs out of divs |
| FaceCloud.CollectText | facecloud.py:88-98 | for given names: succeeds exactly when every container has a message text; the result is the aggregate of those texts in order; otherwise it fails at the first container without one |
| FaceCloud.GetMessageText | facecloud.py:65-98 | the same, with the names derived from the participants text or the title |
| FaceCloud.AggregateIsKeptLines | facecloud.py:88-98 | for `Aggregate` (a fold of `Contribution`): the text is exactly the kept messages in their original order, cleaned, each after a newline |
| FaceCloud.Kept | facecloud.py:93 | the kept messages are exactly the messages that are not notifications |
| FaceCloud.KeptCount | facecloud.py:93 | kept messages and notifications together account for every message |
| FaceCloud.AggregateAppend | facecloud.py:90-96 | the text of two runs of messages is the two texts one after the other |
| FaceCloud.AggregateSnoc | facecloud.py:90-96 | one more message extends the text by its own contribution |
| FaceCloud.AggregateSkips | facecloud.py:93 | a notification leaves the text unchanged |
| FaceCloud.AggregateKeeps | facecloud.py:93-96 | a kept message adds a newline and its cleaned text |
| FaceCloud.AggregateOfNotifications | facecloud.py:88-98 | no messages, or only notifications, give the empty text |
| FaceCloud.AggregateExample | facecloud.py:88-98 | a photo notification followed by "see https://x" gives the text "\nsee ://x" |
| CommandLine.ParseOptionSpec | facecloud.py:151 | for `ParseOption`: a token unpacks exactly when it holds exactly one `=`; the key and the value are the text before and after it |
| CommandLine.StoreKeys | facecloud.py:146-153 | for `Store`: the keyword arguments have exactly the keys of the tokens |
| CommandLine.StoreLastWins | facecloud.py:150-153 | for `Store`: a key keeps the value of its last token |
| CommandLine.StoreSnoc | facecloud.py:153 | storing one more pair updates that one key |
| CommandLine.ParseCommandLine | facecloud.py:137-153 | fewer than three arguments give the usage error; otherwise it gets past unpacking exactly when every option token holds exactly one `=`, and then succeeds with the input file, the output file and the stored options; on failure it names the first token that does not unpack |

## Left out

- HTML parsing (BeautifulSoup): the model takes the texts the parser would return. A missing
  participants div or a missing `<title>` makes the source raise before any text exists. It
  cannot be expressed here because the inputs are strings.
- Reading the input file and `makeWordCloud`, which renders and saves the image through the
  WordCloud library: file and image I/O.
- `_guessType` and `_castType`: the option values stay strings. Python's `ast.literal_eval`
  is not modelled. As written, `_castType` reads the loop's global `v` rather than its own
  parameter. That gives the same value here, because it is always called with `v`.
- Printing the usage text and `sys.exit(1)`: they become the `Usage` error.
- Exceptions raised when a token does not unpack, or when `_getDivText` runs past the last
  div: they become `Failure` values instead of terminating the process.
- CommandLine.ParseCommandLine: the exceptions that `_castType` raises on a token that does
  unpack are not modelled, because the cast is left out. `_guessType` catches only `ValueError`.
  So an empty value (`width=`) or `background_color=#000000` raises `SyntaxError`, and
  `mask=None` raises `TypeError`. In the model these tokens succeed with their string values.
- FaceCloud.IsIgnored: derived names are treated as literal text inside the pattern. A name
  holding a regex metacharacter (`.`, `(`, `|`, ...) would change the pattern in the source.
  The model does not capture that.
- The WhatsApp extractor and the multi-file assembly of later revisions of the program: they are
  not part of `facecloud.py`.
