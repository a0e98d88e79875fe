# CleanSweep main-process core, modelled in Dafny

CleanSweep is a desktop file organiser. Its Electron main process holds the
logic this project models:

- **Path guard** (`isDangerousPath`). It refuses to sweep system
  directories, the user's profile root and drive roots. See `pathguard.dfy`.
- **Deep scan** (the `deep-scan-file` handler). It picks a content sniffer
  by the file's lower-cased extension and merges the result into one
  metadata record. A read error surfaces as `error` only on the PDF and
  plain-text branches, as does a PDF too large to decode into one string.
  See `dispatch.dfy`. The sniffers are:
  - PDF text salvage (`extractPdfText`), the 2000-character content cap and
    the `/Type /Page` page estimate (`pdf.dfy`);
  - Office metadata (`extractOfficeMetadata`): printable-text salvage for
    legacy OLE files, and tag scraping of the raw bytes for Office Open XML,
    plus `.docx` run text under a 1500-character budget (`office.dfy`);
  - JPEG EXIF-like strings (`extractBasicExif`): timestamp, camera vendor,
    screenshot tools, within the first 64 KiB (`exif.dfy`);
  - PNG dimensions from the IHDR header (`extractPngDimensions`)
    (`png.dfy`);
  - the plain-text fallback: the first 1500 bytes, NULs removed
    (`dispatch.dfy`).
- **Size formatting** (`humanSize`): B/KB/MB/GB/TB, rounded to tenths. See
  `size.dfy`.

`text.dfy` holds what the other files share:
- `Option`;
- the file-read outcome and the latin-1, ASCII and zero-filled-buffer
  decodings;
- JavaScript's `\s`, `trim`, `toLowerCase`, `substring` and `join` on latin-1
  text;
- whitespace collapsing (`replace(/\s{n,}/g, …)`).

Every regular expression is rewritten as an explicit search in two layers.
A match-at-a-position function (`BlockAt`, `RunAt`, `TagMatchAt`,
`RunTextAt`, `MarkerEnd`, …) states the shape of the match it returns, and
that no match starts there when it returns none. A leftmost search
(`FindFrom`, `NextBlock`, `NextRun`, `NextTag`, `NextRunText`, `FindDate`,
`NextVendor`) proves three things:
- the match it finds is a match;
- no match starts earlier;
- when it finds nothing, there is no match at all.

Lazy quantifiers stop at the first closing text. Regex `.` does not cross
`\n` or `\r`.

What these models take as inputs rather than compute:
- **Reading a file.** It is an input `FileRead`: the file's bytes, or the
  message of the error the read threw.
- **`path.resolve`, `path.extname`, the USERPROFILE and HOME variables, and
  Node's UTF-8 decoder.** These are parameters too.
- **`path.basename`.** This one is modelled, for both the POSIX and the
  Windows flavour.

## Model

| member | source | states |
|---|---|---|
| Files.Latin1 | src/main.js:180 | The binary decoding gives one character per byte, whose code is that byte. |
| Files.Ascii | src/main.js:149 | The ASCII decoding gives one character per byte, whose code is the byte with its high bit cleared. |
| Files.ZeroPadded | src/main.js:239-241 | A buffer of n bytes read from a file holds the file's first n bytes, then zeros past the end of a shorter file. |
| Text.LowerCase | src/main.js:141 | Lower-casing keeps the length and maps each character on its own. Only upper-case letters change. |
| Text.IsWs | src/main.js:195 | JavaScript's `\s` on latin-1 text is exactly tab, line feed, vertical tab, form feed, carriage return, space and no-break space. |
| Text.FindFrom | src/main.js:252 | A literal search finds the leftmost occurrence at or after the start, and finds none exactly when there is none. |
| Text.Take | src/main.js:147 | `substring(0, n)` gives a prefix of length n, or the whole text when it is shorter. |
| Text.Trim | src/main.js:195 | Trimming cuts only whitespace, and only at the two ends. The result is empty exactly when the text was all whitespace. Otherwise it starts and ends with a non-whitespace character. |
| Text.TrimVisible | src/main.js:195 | Trimming never removes a non-whitespace character. |
| Text.CollapseVisible | src/main.js:195 | Replacing whitespace runs keeps every non-whitespace character, in order. |
| Text.CollapseBoundsRuns | src/main.js:207 | Suppose runs of at least minRun whitespace characters are replaced by a shorter text. Then no run of k whitespace characters is left, provided minRun <= k and the replacement is shorter than k. |
| Text.Collapse | src/main.js:195 | Replacing whitespace runs maps the empty text to the empty text, and keeps a leading non-whitespace character in front. |
| Text.Words | src/main.js:195 | The reference for single-space collapsing: the words of a text, its maximal non-whitespace runs in order, each non-empty and free of whitespace. |
| Text.CollapseWords | src/main.js:195 | For text that does not start with whitespace, collapsing every whitespace run to one space gives its words joined by single spaces, plus one space when the text ends in whitespace. |
| Text.CollapseTrimWords | src/main.js:195 | Collapsing every whitespace run to one space and then trimming gives exactly the words of the text joined by single spaces. |
| Text.JoinWordsEnds | src/main.js:195 | Words joined by spaces are empty only when there are no words, and otherwise start and end with a non-whitespace character. |
| Text.JoinPrefix | src/main.js:227 | Joining more parts only extends the joined text. |
| PdfSniffer.StreamBodyStart | src/main.js:183 | A block header is `stream` then CR LF or LF, CR LF tried first. The body starts right after the line feed. It starts there whenever either header is present, and there is none exactly when neither is. |
| PdfSniffer.BlockAt | src/main.js:183 | A block's body starts where its header's body does and ends at the first `endstream` after it. No `endstream` lies inside the body. There is no block exactly when the header is missing or no `endstream` follows it. |
| PdfSniffer.NextBlock | src/main.js:183-185 | The global stream regex resumes at the leftmost block at or after the resume point. It finds none exactly when no block starts there or later. |
| PdfSniffer.NextBody | src/main.js:183-185 | The body the stream regex captures next lies after the resume point, ends before an `endstream` and holds no `endstream` itself. |
| PdfSniffer.NextBodyIsBlock | src/main.js:183-185 | The next body is the body of the leftmost block, and there is none exactly when no block is left. |
| PdfSniffer.BlockBodies | src/main.js:183-185 | The bodies the global stream regex captures, in order. The list is empty exactly when no block is left, and otherwise starts with the leftmost block's body. |
| PdfSniffer.BlockBodiesStep | src/main.js:183-185 | After one body the regex resumes just past that body's `endstream`. |
| PdfSniffer.RunAt | src/main.js:188 | A parenthesised run closes at the first `)` after its `(`. There is none exactly when the position holds no `(` or no `)` follows it. |
| PdfSniffer.NextRun | src/main.js:188-190 | The run regex resumes at the leftmost run. It finds none exactly when there is none. |
| PdfSniffer.ReplacePair | src/main.js:191 | A pair replacement leaves text without the pair's first character unchanged. With a replacement of at most two characters it never lengthens the text. |
| PdfSniffer.ReplacePairAt | src/main.js:191 | A global replacement of a two-character pattern rewrites its first occurrence and resumes right after it. |
| PdfSniffer.ReplacePairSkip | src/main.js:191 | The pattern's first character followed by anything but its second is kept, and the search resumes at the next character. |
| PdfSniffer.PassKeeps | src/main.js:191 | A replacement pass for one escape leaves an escape of another letter unchanged. |
| PdfSniffer.Unescape | src/main.js:191 | Unescaping never lengthens a run, and leaves a run without a backslash unchanged. |
| PdfSniffer.UnescapeInOrder | src/main.js:191 | The five replacements run one after the other: backslash, backslash, `n` becomes a backslash and a line feed, because the first pass already reads the second backslash and the `n` as an escape. |
| PdfSniffer.UnescapeOne | src/main.js:191 | A run with a single escape `\n`, `\r`, `\(`, `\)` or `\\` decodes it to a line feed, nothing, `(`, `)` or a backslash, and keeps the text around it. |
| PdfSniffer.AcceptedIffAlnum | src/main.js:192 | A decoded run is kept exactly when it holds an ASCII letter or digit. The non-blank test is implied by that. |
| PdfSniffer.BlockRuns | src/main.js:190-193 | Every run collected from a block holds an ASCII letter or digit. |
| PdfSniffer.AllRunsAccepted | src/main.js:183-194 | The unbudgeted reference gives the accepted runs of every block in order. Each holds a letter or digit, and there are none exactly when no block yields one. |
| PdfSniffer.Gather | src/main.js:185-194 | The block loop only appends to the texts gathered so far. Every text it appends holds a letter or digit. |
| PdfSniffer.Texts | src/main.js:179-194 | Every text gathered from a document holds an ASCII letter or digit. |
| PdfSniffer.GatherPrefix | src/main.js:185-194 | The budgeted block loop yields a prefix of all accepted runs of the remaining blocks, and all of them when their total length stays under 2500. |
| PdfSniffer.GatherCut | src/main.js:185-194 | The block loop keeps the runs of whole blocks up to the first block after which the gathered texts reach 2500 characters, or all blocks when they never do. |
| PdfSniffer.GatherSomething | src/main.js:185-194 | Under budget, the loop adds a text exactly when some remaining block holds an accepted run. |
| PdfSniffer.BudgetStops | src/main.js:185 | Once the gathered texts hold 2500 characters, no further block is read. |
| PdfSniffer.TextsPrefix | src/main.js:183-194 | A document's texts are the accepted runs of its stream blocks, in order, up to and including the first block after which they total at least 2500 characters, and all of them when they never do. There is a text exactly when some block holds an accepted run. |
| PdfSniffer.JoinVisibleNonEmpty | src/main.js:195 | Joining a non-empty list of accepted texts leaves something visible. So the null fallback fires only when no run was accepted. |
| PdfSniffer.Normalize | src/main.js:195 | Collapsing and trimming gives exactly the words of the input joined by single spaces. So the text has no whitespace at either end, no two whitespace characters in a row, only plain spaces, and the input's non-whitespace characters in order. |
| PdfSniffer.JoinText | src/main.js:195 | Joining the collected texts gives null exactly when there are none. Otherwise the text is the words of the space-joined texts separated by single spaces: non-empty, trimmed, single-spaced, and holding exactly their visible characters. |
| PdfSniffer.ExtractText | src/main.js:179-196 | The result is null exactly when no stream block holds an accepted run. Otherwise it is the words of the accepted runs, joined with spaces, separated by single spaces. |
| PdfSniffer.TextContent | src/main.js:147-148 | For any collected texts, the content is present exactly when there is some text. It is then the first 2000 characters of their words separated by single spaces: 1 to 2000 characters, starting with a visible character, single-spaced. |
| PdfSniffer.PdfContent | src/main.js:147-148 | Content is present exactly when some stream block of the latin-1 text holds an accepted run. It is then the first 2000 characters of the words of the accepted runs separated by single spaces. |
| PdfSniffer.MarkerEnd | src/main.js:149 | A marker match found at a position is `/Type`, whitespace, `/Page` and one more character other than `s`, at least 11 characters in all. There is none exactly when no such match starts there. |
| PdfSniffer.MarkerGapUnique | src/main.js:149 | In a marker match the whitespace between `/Type` and `/Page` is the whole whitespace run after `/Type`, so taking that run whole loses no match. |
| PdfSniffer.MarkerSomewhere | src/main.js:149 | The scan finds a marker at some position exactly when the text holds a marker match. |
| PdfSniffer.NextMarker | src/main.js:149 | The global marker regex resumes at the leftmost match at or after the resume point, and finds none exactly when there is none. |
| PdfSniffer.MarkerMatches | src/main.js:149 | The positions the global regex matches, in order: each is a match, and each starts at or after the end of the one before. |
| PdfSniffer.CountMarkers | src/main.js:149 | Non-overlapping matches number at most one per 11 characters. |
| PdfSniffer.CountMarkersNext | src/main.js:149 | Counting stops when no match is left and otherwise counts the leftmost match and resumes after it. |
| PdfSniffer.CountMarkersMatches | src/main.js:149 | The count is the number of matches the global regex returns. |
| PdfSniffer.CountPositiveIffMarker | src/main.js:149 | The count is positive exactly when some marker occurs. |
| PdfSniffer.PageEstimate | src/main.js:149 | The page estimate is the length of the match list of the ASCII text. It is at most the file size over 11. It is positive exactly when the ASCII text holds `/Type`, optional whitespace, `/Page` and a character other than `s`. |
| PdfSniffer.PageMarkerExamples | src/main.js:149 | A marker followed by any character but `s` counts, with or without a space before `/Page`. |
| PdfSniffer.NonPageMarkers | src/main.js:149 | `/Type /Pages` is not counted, and a marker that ends the file is missed. |
| PdfSniffer.TwoMarkers | src/main.js:149 | Two markers each followed by a line feed count 2. |
| PdfSniffer.HiddenMarker | src/main.js:149 | In `/Type/Page/Type/Page>` the first match swallows the second marker's slash, so only one is counted. |
| PdfExamples.NormalizeIdempotent | src/main.js:195 | Collapsing and trimming a second time changes nothing. |
| PdfExamples.CollapseFixed | src/main.js:195 | Collapsing leaves text that is already single-spaced unchanged. |
| PdfExamples.NormalizeFixed | src/main.js:195 | Text that is already single-spaced with visible ends is its own normalisation. |
| PdfExamples.SingleBlock | src/main.js:183-194 | A document made of one stream block yields exactly the accepted runs of its body. |
| PdfExamples.SingleRun | src/main.js:188-193 | A body with one parenthesised run yields that run, unescaped, if it is accepted. Otherwise it yields nothing. |
| PdfExamples.HelloWorld | src/main.js:179-196 | `stream\n(Hello World)Tj\nendstream` yields the single text `Hello World`, and the extracted text is exactly `Hello World`. |
| OfficeSniffer.Scrub | src/main.js:207 | Blanking works one character at a time: a printable ASCII character or line feed is kept, anything else becomes a space. |
| OfficeSniffer.ScrubVisible | src/main.js:207 | After blanking, the visible characters are exactly the input's printable non-space ASCII characters. |
| OfficeSniffer.OleText | src/main.js:207 | The salvaged text is printable ASCII or line feeds and has no run of three whitespace characters. It has no whitespace at either end. Its visible characters are exactly the input's printable non-space characters. |
| OfficeSniffer.ExtractOle | src/main.js:205-209 | Content is present exactly when the salvaged text is longer than 20 characters. It is then the first 1500 characters of that text, and keeps its character set and spacing bounds. |
| OfficeSniffer.LazyClose | src/main.js:212 | A lazy `.*?` stops at the first closing tag. It fails when a line break comes first. |
| OfficeSniffer.TagMatchAt | src/main.js:212 | The match at a position is an opening tag, then line-break-free text, then the nearest closing tag. No nearer closing tag pairs with it. |
| OfficeSniffer.NextTag | src/main.js:212 | The first match starts at the leftmost position where one can start. |
| OfficeSniffer.FirstTag | src/main.js:212 | The tag text is absent exactly when no tag pair exists. Otherwise it is the text of the leftmost, then shortest, tag pair. |
| OfficeSniffer.Property | src/main.js:212-221 | A property is present exactly when its tag pair occurs. Its value is the first tag text cut to the field's cap. |
| OfficeSniffer.FirstTagAtStart | src/main.js:212 | A tag pair at the very start of the text gives the text up to the first closing tag. |
| OfficeSniffer.TitleExample | src/main.js:212-213 | `<dc:title>Report</dc:title>` gives the title `Report`. |
| OfficeSniffer.RunTextAt | src/main.js:225 | A run-text match at a position is `<w:t`, attributes up to the first `>`, then line-break-free text up to the nearest `</w:t>`. No nearer `</w:t>` ends it, and there is none exactly when no such match starts there. |
| OfficeSniffer.NextRunText | src/main.js:225-227 | The run-text regex resumes at the leftmost match. It finds none exactly when there is none. |
| OfficeSniffer.NextRunStep | src/main.js:227-228 | Each loop step resumes strictly after where it started, and within the document. |
| OfficeSniffer.AllRunTexts | src/main.js:225-228 | The unbudgeted reference: every run text the global run regex captures, in order. The list is empty exactly when no run text is left, and otherwise starts with the leftmost one's text. |
| OfficeSniffer.CollectRunTexts | src/main.js:225-229 | The budget loop appends a prefix of the document's run texts, in order, to what it already holds. |
| OfficeSniffer.BudgetInvisible | src/main.js:227-230 | Stopping at the 1500-character budget does not change the first 1500 characters of the joined text. They are those of all run texts joined. |
| OfficeSniffer.CollectEmpty | src/main.js:227-230 | The loop collects nothing exactly when the document has no run text. |
| OfficeSniffer.BudgetReached | src/main.js:227-230 | Once the joined text reaches 1500 characters, later run texts cannot change its first 1500 characters. |
| OfficeSniffer.DocxContent | src/main.js:223-231 | `.docx` content is present exactly when there is run text. It is then the first 1500 characters of all run texts joined with spaces. |
| OfficeSniffer.ExtractOoxml | src/main.js:211-232 | The result is null exactly when no property tag occurs and, for `.docx`, no run text does either. Otherwise each field is its element's first tag text cut to its 200/100/300 cap, present exactly when the tag occurs, and the content is the `.docx` body text, for `.docx` only. |
| OfficeSniffer.ExtractOffice | src/main.js:199-234 | An unreadable file, or one too large to decode into one string, gives null. A legacy OLE file gives its salvaged text as the only field, or null when there is none. Any other extension gives the Open XML result, with run text only for `.docx`. |
| ExifSniffer.HeadText | src/main.js:240-244 | The scanned text is exactly 64 KiB: each byte of the file's head as one character, then NULs past the end of a shorter file. |
| ExifSniffer.FindDate | src/main.js:246 | The timestamp search returns the leftmost `dddd:dd:dd dd:dd:dd`. It finds none exactly when none exists. |
| ExifSniffer.FormatDate | src/main.js:247 | The reported date has the `dddd-dd-dd dd:dd:dd` layout. Only the two date colons change. |
| ExifSniffer.DateRoundTrip | src/main.js:247 | Reading a reported date back gives the timestamp found. |
| ExifSniffer.DateRoundTripBack | src/main.js:247 | Every reported-layout date is the report of exactly one timestamp. |
| ExifSniffer.DateTaken | src/main.js:246-247 | `dateTaken` is absent exactly when the head has no timestamp. Otherwise it is the leftmost timestamp with its date colons turned into dashes. |
| ExifSniffer.VendorFrom | src/main.js:249 | At one position the first alternative in list order that matches, ignoring case, is taken: no earlier alternative matches there. |
| ExifSniffer.VendorFromAt | src/main.js:249 | Trying the alternatives finds one exactly when some vendor name matches at that position. |
| ExifSniffer.NextVendor | src/main.js:249 | The camera search returns the leftmost position where a vendor name matches. It finds none exactly when there is none. |
| ExifSniffer.NonNulRun | src/main.js:249 | `[^\0]{0,40}` takes as many non-NUL characters as it can, up to 40. It stops only at the cap, the end, or a NUL. |
| ExifSniffer.Printable | src/main.js:250 | Blanking keeps printable ASCII, turns everything else into a space, and keeps the length. |
| ExifSniffer.TokenLetters | src/main.js:249 | A matched vendor name is made of ASCII letters, whatever their case. |
| ExifSniffer.TrimKeepsHead | src/main.js:250 | Trimming a text that starts with visible characters keeps them. |
| ExifSniffer.FirstVendor | src/main.js:249 | The camera match starts at the leftmost vendor name, with the first alternative that matches there. None exists exactly when no vendor name occurs. |
| ExifSniffer.CleanKeepsLetters | src/main.js:250 | Blanking and trimming keep the leading letters of the match, and leave only printable ASCII. |
| ExifSniffer.CameraAt | src/main.js:249-250 | The camera text is the vendor name plus the greedy run of up to 40 non-NUL characters after it, with non-printables blanked and the ends trimmed. It starts with the vendor name as written in the file, is printable ASCII, and is at most 49 characters, so the 60-character cut never binds. |
| ExifSniffer.Camera | src/main.js:249-250 | `camera` is absent exactly when no vendor name occurs. Otherwise it is the camera text at the leftmost vendor match, so it starts with that vendor name and is printable and at most 49 characters. |
| ExifSniffer.IsScreenshot | src/main.js:252 | The screenshot flag is set exactly when `Screenshot`, `Snipping` or `ShareX` occurs in the head, case-sensitively. |
| ExifSniffer.ExtractExif | src/main.js:237-255 | An unreadable file gives null. A readable file gives null exactly when none of timestamp, vendor or screenshot tool occurs in the head. Otherwise the fields are the head's date, camera and screenshot results, each present exactly when its pattern occurs. |
| ExifSniffer.ExifReadsWindowOnly | src/main.js:239-244 | Bytes past the first 64 KiB never change the result. |
| PngSniffer.ReadU32BE | src/main.js:265-266 | A big-endian read is below 2^32. |
| PngSniffer.ReadEncodeU32BE | src/main.js:265-266 | Reading back the four big-endian bytes of a 32-bit value gives that value. |
| PngSniffer.EncodeReadU32BE | src/main.js:265-266 | The value read from four bytes encodes back to exactly those bytes. |
| PngSniffer.ExtractPng | src/main.js:258-274 | A result exists exactly when the file opens and starts with 0x89 0x50. Width and height are the 32-bit big-endian values at offsets 16 and 20 of the zero-filled 32-byte head: the file's own bytes when it is long enough, zero for a file of at most 16 bytes. `likelyScreenshot` holds exactly for a listed width and a height above 900. |
| PngSniffer.HeaderDimensions | src/main.js:264-267 | Any file starting with a well-formed PNG signature and IHDR reports that header's width and height, whatever follows. |
| PngSniffer.FullHdFlagged | src/main.js:269 | A 1920×1080 PNG is flagged as a likely screenshot. |
| SizeFormat.UnitIndex | src/main.js:279 | The unit index i is the one with 1024^i <= bytes < 1024^(i+1). |
| SizeFormat.UnitIndexUnique | src/main.js:279 | No other exponent brackets the byte count. |
| SizeFormat.UnitName | src/main.js:278-280 | The first five indices name B, KB, MB, GB and TB. A larger index renders as `undefined`. |
| SizeFormat.Tenths | src/main.js:280 | The count of tenths is within half a tenth of bytes / 1024^i. A tie goes up. |
| SizeFormat.TenthsUnique | src/main.js:280 | No other count of tenths is that close. |
| SizeFormat.TenthsRange | src/main.js:279-280 | Within a unit, the displayed number lies between 1.0 and 1024.0. |
| SizeFormat.Decimal | src/main.js:280 | A whole number renders as digits with no leading zero. |
| SizeFormat.DecimalRoundTrip | src/main.js:280 | Parsing a rendered whole number gives it back. |
| SizeFormat.RenderTenths | src/main.js:280 | A number with no tenths digit renders without a decimal point. Otherwise it renders as digits, a point and one digit. |
| SizeFormat.TenthsRoundTrip | src/main.js:280 | Parsing a rendered number gives back its count of tenths. |
| SizeFormat.HumanSize | src/main.js:276-281 | Zero is `0 B`. Otherwise the text is the number of tenths nearest to bytes / 1024^i, rendered, then a space and the unit name. Here i is the exponent that brackets the count. |
| SizeFormat.HumanSizeRange | src/main.js:279-280 | The displayed number is never below 1 nor above 1024. |
| SizeFormat.SmallExample | src/main.js:276-281 | 1023 bytes shows as `1023 B`. |
| SizeFormat.KibExample | src/main.js:276-281 | 1024 bytes shows as `1 KB`. The `.0` is dropped. |
| SizeFormat.HalfKibExample | src/main.js:276-281 | 1536 bytes shows as `1.5 KB`. |
| SizeFormat.RoundsUpExample | src/main.js:276-281 | 1048575 bytes rounds up to `1024 KB` and stays in the smaller unit. |
| SizeFormat.PebibytesUndefined | src/main.js:278-280 | Two pebibytes print as `2 undefined`: the unit index runs past the unit table. |
| SizeFormat.HumanSizeCapped | src/main.js:276-281 | The corrected form: zero is `0 B`. Otherwise the number of tenths nearest to bytes / 1024^i is shown with a real unit name. Here i brackets the count, or is the TB index for counts of 1024^5 and more. |
| SizeFormat.CappedAgrees | src/main.js:276-281 | Below 1024^5 bytes the corrected form prints exactly what the source prints. |
| PathGuard.Normalize | src/main.js:89 | Normalising keeps the length. Each character is lower-cased, and backslashes become slashes. |
| PathGuard.NormalizeIdempotent | src/main.js:89 | Normalising twice is normalising once. |
| PathGuard.MatchesFromIff | src/main.js:93-94 | The protected-list loop fires exactly when the path equals a listed directory, with or without a trailing slash. |
| PathGuard.ListedIff | src/main.js:93-95 | The loop's verdict over the whole list is exactly "the path is a protected directory, bare or with a trailing slash". |
| PathGuard.HomeDir | src/main.js:92 | The home directory is USERPROFILE if set and non-empty, else HOME if set, else empty. It is normalised like the path. |
| PathGuard.Basename | src/main.js:94 | The base name is no longer than the path and holds no separator. It is non-empty exactly when some non-separator follows the Windows drive prefix, if any. |
| PathGuard.BasenameShape | src/main.js:94 | The base name is the last separator-free component, ignoring trailing separators. It never reaches into a Windows drive prefix. |
| PathGuard.CheckPath | src/main.js:88-98 | A path is dangerous exactly when it is listed, the profile root, or a drive root. The reason follows that order of priority: listed directory, then profile root, then drive root. |
| PathGuard.CheckIgnoresSpelling | src/main.js:89 | The verdict ignores letter case and the kind of slash in the resolved path. |
| PathGuard.ListedRefused | src/main.js:90-95 | Every listed directory is refused, with or without a trailing slash. |
| PathGuard.NotListed | src/main.js:90-91 | A path whose length or first character fits no listed directory is not listed. |
| PathGuard.SafeWhenUnlisted | src/main.js:93-98 | A path that is not listed, not the profile root and not a drive root is allowed. |
| PathGuard.ProfileSubfolderAllowed | src/main.js:96 | A folder inside the profile is allowed. |
| PathGuard.ProfileRootRefused | src/main.js:96 | The profile root itself is refused, with the profile message. |
| PathGuard.DriveRoots | src/main.js:94-97 | `D:\` gets the drive-root message. `C:\` is on the list and, having no base name, is quoted as typed. |
| DeepScan.KindOf | src/main.js:145-173 | Each branch is chosen exactly for its extension list. |
| DeepScan.StripNul | src/main.js:162 | Removing NULs leaves no NUL. Every other character keeps its count. |
| DeepScan.StripNulAppend | src/main.js:162 | Removing NULs works piece by piece. |
| DeepScan.StripNulClean | src/main.js:162 | Removing NULs leaves text without NULs unchanged. |
| DeepScan.TextContent | src/main.js:158-162 | Text-file content is the decoding of the first 1500 bytes, or of the whole of a shorter file, with NULs removed. It holds no NUL. |
| DeepScan.TextReadsHeadOnly | src/main.js:158-162 | Bytes past the first 1500 never reach text-file content. |
| DeepScan.DeepScanFile | src/main.js:140-176 | An unknown extension gives an empty record. `error` is set exactly for an unreadable PDF or text file, or a PDF too large to decode into one string, and then alone, with the read error or the string-length error. Each branch fills only its own fields, with exactly its sniffer's result: PDF content and page estimate, the Office fields, the text content, the EXIF fields, the PNG dimensions. |
| DeepScan.EmptyPdf | src/main.js:145-150 | An empty PDF gives no content and a page estimate of 0. |
| DeepScan.EmptyText | src/main.js:157-163 | An empty text file gives empty content, not missing content. |
| DeepScan.ExtensionCaseIgnored | src/main.js:141 | Extensions are matched without regard to case. |
| DeepScan.LowerCaseIdempotent | src/main.js:141 | Lower-casing twice is lower-casing once. |

## Left out

- The Electron shell, tray and windows; settings; dialogs. These are UI and platform plumbing.
- Folder listing and subfolder listing. They are file-system enumeration, which is I/O.
- Move, copy and delete; the disk-space check; sweep logs and undo. These are file-system side effects.
- `preload.js`. It is an IPC bridge and holds no logic.
- Reading files. It is the input `FileRead`, and the `try`/`catch` is modelled as its `Unreadable` case. A file read whole but longer than the longest string is modelled too, with the limit of V8 on 64-bit platforms fixed as the constant `Files.MaxStringLength`; other platforms' limits are not modelled.
- `path.resolve`, `path.extname`, the environment variables and Node's UTF-8 decoder. These are inputs.
- SizeFormat.UnitIndex: uses an exact integer logarithm. For counts just below a power of 1024, the source's floating-point `Math.log(bytes) / Math.log(1024)` can round up across the boundary, and the model gives the exact answer there instead. Just below 1024^5, for example, the model prints `1024 TB` where the source can print `1 undefined`.
- SizeFormat.Tenths: models `toFixed(1)` as exact rounding half up. The float quotient and `toFixed`'s binary rounding are not modelled.
- Text.LowerCase: models `toLowerCase` only on latin-1 characters. Every sniffer works on latin-1 text. Paths and extensions with other characters fold as in latin-1 only.
- OfficeSniffer.OleText: states the kept character set, the visible characters in order, the absence of three-character whitespace runs and the trimmed ends. It does not say where the remaining one- and two-character gaps fall.
- PdfSniffer.ReplacePair: its own contract gives only the unchanged case and the length bound. How each occurrence is rewritten is stated by PdfSniffer.ReplacePairAt and PdfSniffer.ReplacePairSkip.
- PdfSniffer.Unescape: its own contract gives only the length bound and the backslash-free case. What each escape decodes to is stated by PdfSniffer.UnescapeOne, for runs with one escape.
- PdfSniffer.Gather: its own contract gives only appending and acceptance. Which blocks are read once the budget binds is stated by PdfSniffer.GatherCut.
- PdfSniffer.GatherPrefix: states a prefix. Which prefix is stated by PdfSniffer.GatherCut.
- PdfSniffer.Texts: its own contract gives only acceptance. Which runs a document yields is stated by PdfSniffer.TextsPrefix.
- PdfSniffer.CountMarkers: its own contract gives only the bound. The count itself is stated by PdfSniffer.CountMarkersMatches.
- PdfSniffer.BlockRuns: states only that every collected run holds a letter or digit. Which runs are collected is fixed by its definition, and the single-run and single-block examples pin it down on concrete bodies.
- Text.Collapse: its own contract covers only the empty text and a leading visible character. What it does to whitespace runs is stated by Text.CollapseVisible and Text.CollapseBoundsRuns, and for one-space collapsing by Text.CollapseWords.
- OfficeSniffer.ExtractOoxml: the raw bytes are scraped without unzipping, as in the source. Deflated parts are opaque, just as they are to the source.

## Findings

| source | as written | input that shows it | evidently intended | confidence | as-written member | corrected member |
|---|---|---|---|---|---|---|
| src/main.js:278-280 | `sizes[i]` with i = floor(log1024(bytes)) and only five units, so i >= 5 reads past the table | 2 × 1024^5 bytes prints `2 undefined` | counts of 1024^5 and more shown in TB | medium, not executed (float `Math.log` could shift the exact boundary at 1024^5, not 2 × 1024^5) | SizeFormat.PebibytesUndefined | SizeFormat.HumanSizeCapped |
