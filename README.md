# udx-header, modelled in Dafny

The UDX Header editor extension keeps a fixed ASCII-art banner at the top of
source files. The banner is eleven lines, the first and last an asterisk border, and it
shows:

- the file name;
- the author (a configured GitHub user name);
- a `Created:` time;
- an `Updated:` time.

Each line is wrapped in the comment prefix and suffix of the document's language.

The extension reacts to two events:

- **The insert command.** It adds a banner at the start of a document that has none.
- **Saving.** Just before a document is saved, it re-renders an existing banner. It keeps the creation time it reads back out of the old banner and puts the current time in `Updated:`.

This project models the header engine of `src/extension.ts`: resolving the
comment style, rendering the banner, finding and parsing a banner in a text,
and the decisions the two handlers make. It proves what the engine promises:

- The comment style lookup is total.
- The banner has its exact shape.
- A document holds no banner exactly when it lacks two non-overlapping border lines.
- The located span lies within its bounds and swallows the newlines after it.
- A rendered banner is always found again, so the insert command never adds a second one.
- Under stated conditions on the text put into it, a banner is read back with the same author and creation time.
- Saving replaces the banner and nothing else.
- Any number of saves keep the creation time.

Modules, one per concern:

- `Wrappers`: an `Option` type.
- `JsString`: the JavaScript string operations the engine uses, with their exact index conventions.
  - `indexOf` and `lastIndexOf`, including clamping of the start position.
  - `trim` and the whitespace class `\s`.
  - `padEnd` and `padStart`.
  - `split` and `join`.
- `Style`: `getCommentStyle` over an abstract delimiter table.
- `Render`: `buildHeader`.
- `HeaderScan`: the two regular expressions of `extractHeaderRanges`, as scanners that try each start position in turn.
- `HeaderLocate`: `extractHeaderRanges`.
  - A method with the extension's mutable locals and newline-absorbing loop.
  - Proved equal to the function `Locate`.
- `HeaderRoundTrip`: render-then-locate properties.
- `Handlers`: the insert and save decisions, with edits applied as text splices.
- `Timestamp`: the digit formatting of `nowString`, for clock readings given as numbers.

The model follows the code in three places where a reader of the banner might expect otherwise.

**The closing search.** The search for the line suffix after the second border starts at that border's own position. The border line itself ends with the suffix, so the span ends at the closing border at the latest. A block closer on a later line is never reached. When the suffix also occurs earlier inside the border line, the span even ends inside that line. `SuffixOnlyAtEnd` names the styles where this cannot happen.

**Padding.** `padEnd` never shortens its input. A file name longer than 50 characters or an author longer than 42 widens its line instead of being cut.

**The current time.** `buildHeader` reads the clock twice, once for the `Created:` fallback and once for `Updated:`. Both reads are modelled as one value `now`.

## Model

| member | source | states |
|---|---|---|
| Style.GetCommentStyle | src/extension.ts:24-33 | The lookup is total. `start` is always empty. A known language gets its table prefix and suffix as `line` and `end`. An unknown one gets `# ` and ` #`. |
| JsString.IndexOf | src/extension.ts:72-75 | `-1` exactly when the pattern does not occur at or after the clamped start. Otherwise it returns the first occurrence at or after it. |
| JsString.LastIndexOf | src/extension.ts:80 | `-1` exactly when the pattern does not occur at or before the clamped start. Otherwise it returns the last occurrence at or before it. |
| JsString.Trim | src/extension.ts:100-102 | The result has no leading or trailing whitespace and is no longer than the input. |
| JsString.TrimStrips | src/extension.ts:100-102 | Trimming a trimmed string with whitespace on either side gives back exactly that string. |
| JsString.PadEnd | src/extension.ts:48-53 | The input is kept as a prefix. Spaces follow up to the width. A longer input is kept whole. |
| JsString.PadStart | src/extension.ts:18 | The input is kept as a suffix. Fill characters come before it up to the width. A longer input is kept whole. |
| JsString.Split | src/extension.ts:132 | The pieces contain no separator, and joining them with it gives the input back. |
| JsString.SplitJoin | src/extension.ts:132 | Splitting the join of separator-free pieces gives the pieces back. |
| Render.TemplateLines | src/extension.ts:44-56 | Eleven lines. The first and last are the border. Every inner line differs from the border and starts with two spaces. |
| Render.BuildHeader | src/extension.ts:35-62 | The header starts with the opener line, when the style has one, and ends with an empty line (`"\n\n"`). |
| Render.HeaderLineStructure | src/extension.ts:58-61 | Split at newlines, the header is the optional opener, the eleven wrapped template lines, and two empty strings. That is 13 lines without an opener and 14 with one. |
| Render.FixedWidth | src/extension.ts:44-56 | With a file name of at most 50 characters, an author of at most 42 and 19-character times, every template line is 79 columns wide. |
| Render.NullCreatedIsNow | src/extension.ts:41-42 | A missing creation time renders exactly as the current time passed explicitly. |
| HeaderRoundTrip.HeaderIsJoin | src/extension.ts:44-61 | With an empty opener, the header is the eleven lines `line + template + end` joined by single newlines plus `"\n\n"`. The first and last lines are the border marker. |
| HeaderRoundTrip.HeaderShape | src/extension.ts:44-61 | For any inputs, the header is the opener line, eleven lines joined by newlines with the marker first and last, and `"\n\n"`. |
| HeaderRoundTrip.MarkersFramed | src/extension.ts:72-76 | Whatever precedes or follows such lines, the text holds two non-overlapping markers. |
| HeaderRoundTrip.MarkersAtEnds | src/extension.ts:45-55 | The joined lines begin and end with the marker, so a rendered header holds it twice. |
| HeaderRoundTrip.SecondMarkerAt | src/extension.ts:68-75 | Inner lines and a line prefix free of the 77 asterisks leave no marker between the two borders. The search for the second marker finds the closing border. |
| HeaderScan.MatchAt | src/extension.ts:99-102 | A match at a position starts with the tag and yields a trimmed group. For `By:` the group is one non-empty whitespace-free word. For `Created:` it holds only digits, `-`, `:` and whitespace. |
| HeaderScan.FirstMatchIsLeftmost | src/extension.ts:99-102 | The scan fails exactly when no position matches. Otherwise it returns the match at the leftmost matching position. |
| HeaderScan.ByAt | src/extension.ts:101-102 | A `By:` match at a position yields one non-empty, trimmed, whitespace-free word. |
| HeaderScan.CreatedAt | src/extension.ts:99-100 | A `Created:` match at a position yields a trimmed group of digits, `-`, `:` and inner whitespace. |
| HeaderScan.FirstMatchShift | src/extension.ts:99-102 | Scanning `x + y` from the end of `x` gives what scanning `y` from its start gives. |
| HeaderScan.FindsAuthor | src/extension.ts:101-102 | In a text `u + "By: " + word + v`, where `u` holds no `By:` and is empty or ends in a space and `v` starts with whitespace, the scan returns that word. |
| HeaderScan.FindsCreated | src/extension.ts:99-100 | In a text `u + "Created: " + time + " by " + word + v`, where `u` holds no `Created:` and is empty or ends in a space, the scan returns the timestamp unchanged. |
| HeaderLocate.Marker | src/extension.ts:68-71 | The marker is the prefix, the border and the suffix, and it ends with the suffix. |
| HeaderLocate.SpanStart | src/extension.ts:78-84 | The span starts at or before the first marker. When the style has an opener that occurs at or before the first marker, the span starts at the last such occurrence. Otherwise, and always with an empty opener, it starts at the marker. |
| HeaderLocate.EndSearch | src/extension.ts:86-92 | With a suffix, the span end before newlines is just after the first occurrence of the suffix at or after the second marker. That occurrence ends within the marker. With an empty suffix the end is the marker's end. |
| HeaderLocate.Locate | src/extension.ts:64-105 | A found span lies within the text, starts at or before the first marker, and ends after its end. It is followed by no newline. |
| HeaderLocate.LocateReadsSpan | src/extension.ts:98-104 | A found span is in order and within the text. Its creation time and author are what the two scans read from exactly the span's text. |
| HeaderLocate.Markers | src/extension.ts:72-76 | When both searches succeed, the first marker is the first occurrence in the text. The second is the first occurrence that starts at or after the first one's end. |
| HeaderLocate.SpanEnd | src/extension.ts:86-96 | The span's end lies after the second marker's start and within the text, and no newline follows it. |
| HeaderLocate.AbsorbNewlines | src/extension.ts:94-96 | The loop stops at the first character from its start on that is not a newline, or at the end. Every character it passes is a newline. |
| HeaderLocate.LocateNoneIff | src/extension.ts:72-76 | No header is found exactly when the text lacks two non-overlapping markers. A lone border is never a header. |
| HeaderLocate.ExtractHeaderRanges | src/extension.ts:64-105 | The imperative version returns what `Locate` specifies. A found span is non-empty and within the text. |
| HeaderRoundTrip.HeaderFoundAgain | src/extension.ts:136-147 | For every file name, author, creation time, current time, style and following text, a header rendered at the start of a text is found. |
| HeaderRoundTrip.AuthorRecovered | src/extension.ts:98-102 | When the `Recoverable` conditions hold, take the eleven wrapped template lines joined by newlines, then `"\n\n"` and any text: the header an empty opener gives. The `By:` scan over any prefix of that text reaching past the start of the closing marker returns the author. |
| HeaderRoundTrip.CreatedRecovered | src/extension.ts:98-100 | When the `Recoverable` conditions hold, the `Created:` scan over any such prefix of the same opener-free text returns the creation time. |
| HeaderRoundTrip.RoundTrip | src/extension.ts:98-104 | With an empty opener and the `Recoverable` conditions, locating a rendered header starts at 0, reaches past the closing marker's start, and reads back its author and creation time. |
| HeaderRoundTrip.LocatedAtItsBorders | src/extension.ts:72-76 | Under the `Recoverable` conditions, a header with an empty opener, followed by any text, has its two markers found at 0 and at its closing border. |
| HeaderRoundTrip.SuffixFoundAtClose | src/extension.ts:86-92 | When the suffix occurs in the marker only at its end, the closing search stops exactly at the end of the second marker. |
| HeaderRoundTrip.AbsorbsNewlines | src/extension.ts:94-96 | After a header ending in `"\n\n"`, the loop absorbs those two newlines and every newline the following text starts with. |
| HeaderRoundTrip.SpanCoversHeader | src/extension.ts:64-105 | Under those conditions and `SuffixOnlyAtEnd`, in a text `h + rest` that starts with a rendered header `h`, the located span runs from 0 to the header's end plus the newlines `rest` starts with. It carries the rendered author and creation time. |
| Handlers.Basename | src/extension.ts:132 | A path that is empty or ends in `/` is its own name. Otherwise the name is a non-empty, slash-free suffix of the path, either the whole path or preceded by `/`. |
| Handlers.GithubUser | src/extension.ts:133 | The configured author when it is non-empty, else `0xTokkyo`. Never empty. |
| Handlers.InsertHeaderCommand | src/extension.ts:123-147 | Nothing happens without an editor. The header is reported present exactly when the text holds two markers. Otherwise the header to insert is the one rendered with the current time as creation time. |
| Handlers.InsertAtStart | src/extension.ts:146-148 | The new text is the header followed by the whole old text. |
| Handlers.InsertIdempotent | src/extension.ts:136-147 | Running the insert command again, at any time, on the text it produced reports the header as present. |
| Handlers.WillSaveEdits | src/extension.ts:157-178 | No edit exactly when the text lacks two markers. Otherwise there is one edit over the located span, rendering a header from the current file name, author and time and the creation time read from the span. |
| Handlers.ApplyEdit | src/extension.ts:171-177 | A replacement leaves the text before the span and after it unchanged and puts the new text between them. |
| Handlers.Save | src/extension.ts:171-177 | Saving changes the document's text only. Its file name and language are kept. |
| Handlers.SaveAll | src/extension.ts:157-183 | A series of saves, too, keeps the file name and language. |
| Handlers.SaveWithoutHeaderChangesNothing | src/extension.ts:166-168 | Saving a document without a header leaves it unchanged. |
| Handlers.SaveReplacesSpan | src/extension.ts:166-177 | Saving replaces the located span, and nothing else, with the re-rendered header. |
| Handlers.SaveKeepsCreated | src/extension.ts:166-177 | Saving a document that starts with a recoverable header gives a header with the same creation time and the current time, followed by the old text after the header's trailing newlines. |
| Handlers.SavesKeepCreated | src/extension.ts:157-183 | After any non-empty series of saves, the header keeps its creation time and shows the last save's time. The text after it is kept, less the newlines it started with. |
| Handlers.SavesKeepHeader | src/extension.ts:157-183 | The induction behind it, by the number of saves: when the text is a rendered header and more text, the saved text is the header rendered from the document's name, the configured author, the same creation time and the last save's time, followed by that text less its leading newlines. |
| Handlers.SaveStep | src/extension.ts:166-177 | One save of a document that starts with a rendered header gives the header re-rendered now, followed by the old text after its newlines, which itself starts with no newline. |
| Handlers.InsertThenSave | src/extension.ts:143-169 | A header inserted at one time and saved at another shows the insertion time as its creation time and the save time as its update time. The old text follows, less the newlines it started with. This holds under the conditions listed for it below. |
| Timestamp.DecimalStringValue | src/extension.ts:18 | The decimal digits of a number read back as that number. |
| Timestamp.DecimalString | src/extension.ts:18 | `String(n)` is a non-empty string of digits. |
| Timestamp.Pad2 | src/extension.ts:18 | `padStart(2, '0')` of `String(n)` is at least two characters, all digits. |
| Timestamp.Pad2Digits | src/extension.ts:18 | Below 100, `pad` gives exactly the tens and units digits, which read back as the number. |
| Timestamp.NowStringIsStamp | src/extension.ts:16-22 | Whatever the clock reads, the timestamp holds only digits, `-`, `:` and a space, is trimmed, and has no asterisk or newline. That is a creation time the `Created:` scan gives back whole. |
| Timestamp.NowStringFields | src/extension.ts:16-22 | For a four-digit year, the timestamp is 19 characters with separators at fixed columns. Each field reads back as its reading, the month counted from 1. |

## Left out

- The editor host is not part of this model. That covers command registration, input boxes, information and error messages, reading and writing the configuration, `editor.edit`, the will-save event, `waitUntil`, and converting offsets to positions. The handlers are modelled as functions from a document, the setting and the time to the edit they ask for. Edits are applied by character offset.
- The `setGithubUser` command (src/extension.ts:112-121) only prompts and writes the setting through the host. The setting is a parameter of the handlers.
- The clock is not read. `buildHeader` and the handlers take the current time as a string. `NowString` takes the clock's readings as numbers and models only their formatting. Years are non-negative.
- `./delimiters` is not part of this model. The language table is an arbitrary map from language id to a prefix and suffix pair. The map is assumed to hold only its own keys; inherited object properties such as `toString` are not modelled.
- Strings are sequences of characters. UTF-16 code units and surrogate pairs are not distinguished, and positions are character offsets.
- The two regular expressions are modelled only as the `Created:` and `By:` scanners they are. General regex semantics are not modelled.
- Logging and the `try`/`catch` reporting around the edits are side effects with no result and are left out.
- Render.BuildHeader: the two clock reads are one value. A header whose two reads straddle a second boundary is not modelled.
- HeaderRoundTrip.RoundTrip: proved only for an empty opener (`start == ""`), which `getCommentStyle` always yields. It also needs the `Recoverable` conditions:
  - a non-empty author of one word without `*` or `Created:`;
  - a creation time of timestamp characters;
  - no `*` in the current time;
  - a file name and delimiters free of the 77-asterisk run, `By:` and `Created:`.
- HeaderRoundTrip.SpanCoversHeader: additionally needs `SuffixOnlyAtEnd`. With a suffix that also occurs earlier inside the border line, the code's closing search stops inside the closing border. The span then ends before the header does.
- Handlers.SaveKeepsCreated: needs the same conditions as `SpanCoversHeader`, for the header the document starts with.
- Handlers.SavesKeepCreated: needs `SaveRecoverable` for every save time, and the same conditions as `SaveKeepsCreated`. It says nothing about documents whose header does not start at offset 0.
- Handlers.InsertThenSave: needs `SaveRecoverable` for the insertion time. That means:
  - a non-empty author of one word without `*` or `Created:`;
  - a file name and delimiters free of the 77-asterisk run, `By:` and `Created:`;
  - `SuffixOnlyAtEnd` for the document's style;
  - an insertion time of timestamp characters with no surrounding whitespace.
- Timestamp.NowStringFields: proved for years from 1000 to 9999 and in-range month, day and time fields. Other readings are only shown to be well-formed characters.
