# emailparse, modelled in Dafny

emailparse is a command-line filter. It reads one email message from standard
input and picks the message's text. It builds a small `Email` record from the
text and three header fields, then runs a user-supplied template over that
record. This project models the filter's own logic and proves properties of it:

- `underscore`, the template helper that turns a string into a file-name-safe
  token (`template_helpers.dfy`, module `TemplateHelpers`). Every space becomes
  `_`. Every character outside `[a-zA-Z0-9_-]` is then deleted. The model states
  it as two character-by-character passes, one for each literal
  regular-expression replacement. It is proved equal to a one-pass reference
  (`Translate` per character, concatenated). Proved about it: the output
  alphabet, never lengthening, order preservation (it distributes over
  concatenation), exact character counts, the fixpoint characterisation and
  idempotence.
- `getPart`, which chooses the message text (`part_extractor.dfy`, module
  `PartExtractor`).
  - A multipart message yields the contents of every part whose raw
    `Content-Type` header starts with the requested prefix. The test is
    case-sensitive and sees the header's parameters. The contents are
    concatenated in part order.
  - Any other message yields its whole body.
  - The Go loop is modelled as a method, `GetPart`. It works over a
    `bytes.Buffer` (class `Buffer`) and a multipart reader (class
    `PartReader`, whose `NextPart` hands out the already split parts and
    then end-of-parts).
  - `GetPart` is proved equal to the specification function `GetPartSpec`. That
    function reads every part (`Slurp`, where the first failure is fatal) and
    selects the matching ones (`Select`). `Select` is proved equal to an
    independent filter-then-concatenate reference (`Flatten(Filter(...))`).
- the part of `main` that builds the `Email` record (`email.dfy`, module
  `EmailRecord`). It runs getPart with `"text/plain"` and copies the first
  `Subject`, `Date` and `From` header values. It leaves `To` empty. Every error
  turns into program exit, which is modelled as `Err`.

`mail.dfy` (module `Mail`) holds the shared values:
- bytes (`byte`, 0..255);
- opaque errors;
- the result of reading a stream to its end (`Read`: complete, or partial data
  and an error);
- a header block as a map from canonical key to its values, with `Get`
  returning the first value or `""`;
- the case-sensitive `HasPrefix` test.

`log.Fatal` becomes the `Fatal` outcome of getPart, and the `Err` result of
`Run`. The `(string, error)` pair getPart returns becomes `Returned(text, err)`.
Message bodies and texts are byte sequences. Header values and the argument of
`underscore` are strings of Unicode characters, which correspond to Go's runes.

The `To` field is never filled in. It looks like an oversight, but it is the
program's behaviour, and the model keeps it.

## Model

| member | source | states |
|---|---|---|
| TemplateHelpers.ReplaceSpaces | main.go:29-30 | the first replacement keeps the length and turns exactly the spaces into `_`, leaving every other character in place |
| TemplateHelpers.DeleteDisallowed | main.go:31-32 | the second replacement never lengthens the string and leaves only characters of `[a-zA-Z0-9_-]` |
| TemplateHelpers.Underscore | main.go:28-34 | the helper's output is no longer than its input and contains only ASCII letters, digits, `_` and `-` |
| TemplateHelpers.UnderscoreIsTranslateAll | main.go:28-34 | the two replacements together equal mapping each character on its own (space to `_`, allowed character to itself, anything else to nothing) and concatenating in input order |
| TemplateHelpers.UnderscoreAppend | main.go:28-34 | the helper distributes over concatenation, so surviving characters keep their relative order |
| TemplateHelpers.UnderscoreCount | main.go:28-34 | each `_` in the output stands for an input `_` or space; every other allowed character occurs exactly as often as in the input; no other character occurs |
| TemplateHelpers.UnderscoreFixpoint | main.go:28-34 | a string is left unchanged if and only if all its characters are allowed |
| TemplateHelpers.UnderscoreIdempotent | main.go:28-34 | applying the helper twice gives the same result as applying it once |
| TemplateHelpers.UnderscoreExample | main.go:28-34 | `"a b-c_d!"` becomes `"a_b-c_d"` |
| Mail.Get | main.go:99-101 | a header lookup gives the first value stored under the key, or `""` when there is none (the definition itself; used for Content-Type at lines 49 and 68 too) |
| PartExtractor.Slurp | main.go:56-67 | the read-or-die loop as a value: each part is read in full in order, and the first NextPart or read failure is the outcome (properties in the Slurp lemmas below) |
| PartExtractor.Select | main.go:68-70 | the bytes the conditional `body.Write` appends, in part order (properties in the Select lemmas below) |
| PartExtractor.GetPartSpec | main.go:48-80 | getPart as a value: media-type failure is fatal; multipart selects from the read parts; otherwise the whole body, or the empty text with the read error (properties in the GetPart lemmas below) |
| PartExtractor.Filter | main.go:68-70 | the reference selection keeps a part if and only if it is one of the inputs and its Content-Type has the prefix, and never yields more parts than it was given |
| PartExtractor.FilterAppend | main.go:56-70 | filtering two runs of parts is filtering each in turn, so kept parts stay in part order |
| PartExtractor.FilterCount | main.go:56-70 | each matching part is kept exactly as often as it occurs and every other part not at all: no matching part is skipped or duplicated |
| PartExtractor.SelectIsFlattenFilter | main.go:54-71 | what the loop appends equals the contents of the matching parts, concatenated in part order |
| PartExtractor.SelectAppend | main.go:56-71 | selecting from two runs of parts is selecting from the first run and then from the second |
| PartExtractor.SelectNoMatch | main.go:68-70 | parts that do not match contribute nothing, so with no match the text is empty |
| PartExtractor.SelectEmptyPrefix | main.go:68 | with the empty prefix every part matches and every part's content is kept |
| PartExtractor.SlurpAllClean | main.go:56-67 | reading the parts succeeds if and only if no NextPart call and no part read fails; then there is exactly one read part per part, in order |
| PartExtractor.SlurpAppend | main.go:56-71 | reading two runs of parts one after the other is reading their concatenation, stopping at the first failure |
| PartExtractor.SlurpStopsAt | main.go:61-67 | after a clean prefix, a failure at the next part is the outcome of reading all parts |
| PartExtractor.GetPartNotMultipart | main.go:72-79 | a non-multipart message yields its whole body whatever the prefix; a body read error yields the still-empty text together with the error |
| PartExtractor.MultipartSelectsMatching | main.go:54-71 | a multipart message whose parts all read cleanly yields, without error, the concatenation in part order of exactly the parts whose Content-Type starts with the prefix |
| PartExtractor.MultipartNoMatch | main.go:54-79 | a multipart message with no matching part yields `""` and no error |
| PartExtractor.MultipartFailure | main.go:56-67 | the first failing part is fatal even if it would not have matched, because every part is read in full before the prefix test |
| PartExtractor.ParametersDoNotBlock | main.go:68 | the prefix test sees the raw header: `text/plain; charset=utf-8` matches `text/plain`, `Text/Plain` does not |
| PartExtractor.MultipartExample | main.go:54-71 | in a two-part alternative message the plain-text part is kept and the HTML part is dropped |
| PartExtractor.Buffer.constructor | main.go:53 | a new buffer is empty |
| PartExtractor.Buffer.Write | main.go:69 | writing appends the given bytes to the buffer and changes nothing else |
| PartExtractor.PartReader.constructor | main.go:55 | a new multipart reader starts before the first part |
| PartExtractor.PartReader.NextPart | main.go:57-60 | each call hands out the next part once, in order, and reports end-of-parts once all have been handed out |
| PartExtractor.GetPart | main.go:48-80 | the loop over the parts, with its buffer, yields exactly the specified outcome: fatal on a media-type or part failure, else the selected text, or the whole body for a non-multipart message |
| EmailRecord.Run | main.go:94-103 | a parse or getPart error ends the program; otherwise the record's Text is getPart's text for `text/plain`, Subject, Date and From are the first values of those headers, and To is empty |

## Left out

- Reading standard input and `mail.ReadMessage` (main.go:83-88) are I/O and a library parser. The parse result, a message or an error, is an input of `Run`.
- `mime.ParseMediaType` (main.go:49) is a library call. Its result, a media type or an error, is a field of `Message`. The library lower-cases the media type, so the `multipart/` test is applied to its output as given.
- `multipart.NewReader` and the boundary splitting behind `NextPart` (main.go:55-57) are library code. The items that successive `NextPart` calls yield before end-of-parts are a field of `Message`. A part's content is what the library reader delivers when read to the end. Go's reader decodes a quoted-printable transfer encoding on its own, and that decoding is not part of this model.
- How header keys are canonicalised (`textproto.CanonicalMIMEHeaderKey`) is left out. Headers are maps keyed by canonical names, and the keys the program asks for are already canonical.
- `datef` (main.go:21-27) depends on Go's `time.Parse` and `Format` layout vocabulary and time-zone handling, which are not part of this model.
- Template parsing and execution with `html/template` (main.go:104-111) are a foreign engine, including its HTML escaping. The template arguments and `flag.Parse` are left out with it.
- `log.Fatal` and process exit are modelled only as an error result. The second `err` check in `main` (main.go:91-93) can never fire and has no counterpart.
- Converting the text's bytes to a Go string is left out. The `Email` record's Text is kept as bytes.
- Invalid UTF-8 in header values and in the argument of `underscore` is not modelled. Header values (Subject, Date, From and each part's Content-Type) and the argument of `underscore` are modelled as Unicode characters, while Go keeps them as byte strings and `strings.HasPrefix` compares bytes. For valid UTF-8 both comparisons give the same answer, and so they do for the ASCII prefix `text/plain`. Go's regular expressions read a string as UTF-8 and treat each invalid byte as U+FFFD, which the second replacement deletes.
