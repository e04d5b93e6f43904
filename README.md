# Publication list parser of `loadPublications`

This project models the part of the personal web page's `loadPublications`
(script.js) that turns the text of the bibliography file into the list of
publications shown on the page. The parts are:

- **Segmentation.** The text is split on `@`. Fragments that are white space
  only are dropped (`Bibtex.Segments`).
- **Lines and header.** Each entry is split on line feeds and every line is
  trimmed (`Bibtex.Lines`). The entry type and the citation key are read from
  the first line (`Bibtex.Header`).
- **Field extraction.** Each field is taken from the first line that matches
  a pattern. The value is what `split('=')[1]` gives, trimmed, with all braces
  removed and, except for `abstract`, one trailing comma removed
  (`Bibtex.Find`, `Bibtex.ValueText`, `Bibtex.Clean`, `Bibtex.Field`,
  `Bibtex.Optional`, `Bibtex.ParseEntry`).
- **Display strings.** The link target and the summary line are built from
  the fields (`Publications.Link`, `Publications.Summary`).
- **The loop.** `entries.forEach(...)` runs inside a promise callback. An
  entry that throws ends the loop. The items already appended stay on the
  page, and the `.catch` logs the error (`Publications.Process`,
  `Publications.ProcessEntries`, `Publications.LoadPublications`).

The JavaScript string built-ins the parser uses are modelled in `JsString`.
They are `trim`, `split` with a one-character separator, `startsWith`,
`includes`, `replace(/[{}]/g, '')` and `replace(/,$/g, '')`. An exception is
modelled as an `Err` naming the step and the field that failed:

- `NoKey`: `lines[0].split('{')[1]` is undefined.
- `NoFieldLine(f)`: `find` returned `undefined` for field `f`.
- `NoValue(f)`: the found line has no `=`, so `split('=')[1]` is undefined.

`BibtexFormat` writes entries the way a bibliography file lays them out: the
header line, one `name = {value},` line per field and a closing `}`. The
fields are written in the order `doi`, `url`, `year`, `pages`, `title`,
`author`, `journal`, `abstract`. No name is longer than a name written after
it, so no field's name includes the name of a field written after it. Which
names a value may hold is listed below. It is used to
state what the parser reads back from such files (`BibtexFormat.ReadWritten`,
`Publications.BibliographyPage`). The restriction on what can be read back
comes from the code's own lookups (`BibtexFormat.WritableEntry`):

- The type and the key are trimmed, and neither holds a name the code looks
  up with `includes` (`doi`, `url`, `pages`, `booktitle`, `abstract`). The
  type does not start with a name looked up with `startsWith` alone
  (`title`, `author`, `year`, `journal`); the key may hold any of those
  (`BibtexFormat.HeaderAvoids`). Neither holds a line feed. The type holds
  no `{`. The key holds no `{` and no `,`.
- No value holds a brace, an `=` or a line feed.
- A value does not hold a name that the code looks up with `includes` when
  that lookup must reach a later line. Those names are `doi`, `url`,
  `pages`, `abstract` and (for the venue) `booktitle`. So the `doi` value
  avoids `url`, `pages`, `booktitle` and `abstract`. The `url` and `year`
  values avoid `pages`, `booktitle` and `abstract`. The `pages`, `title` and
  `author` values avoid `booktitle` and `abstract`. The venue avoids
  `abstract`. The abstract may hold any of them.
- Names looked up with `startsWith` (`title`, `author`, `year`, `journal`)
  may appear in any value.

How the code behaves, and where the model takes care to match it:

- **Errors stop the list.** The first entry that throws ends the `forEach`.
  Later entries are not shown. The entries before it stay on the page, and
  one error reaches `console.error` (`Publications.PageFailure`).
- **Every field on the header line.** An entry with every field on its
  header line throws on the title, because no line starts with `title`.
  Nothing is shown for it (`Bibtex.TitleMissing`).
- **Citation key.** The key is `split('{')[1].split(',')[0]`. It stops at the
  first `,` or at a second `{`, whichever comes first
  (`Bibtex.HeaderFields`).
- **Optional fields.** A field is read only when a line *starts* with its
  name. Its value is then taken from the first line that merely *includes*
  the name, which may be another field's line. So the parser depends on the
  order of fields (`Bibtex.OptionalReadsEarlierLine`).
- **The abstract keeps its comma.** It keeps the comma that ends its line
  (`BibtexFormat.ReadWritten`).

## Model

| member | source | states |
|---|---|---|
| JsString.Trim | script.js:18 | the result starts and ends with no white space; it is empty exactly when the text is all white space; it holds only characters of the text |
| JsString.TrimUnique | script.js:18 | trimming a trimmed text surrounded by white space gives that text |
| JsString.Split | script.js:15 | there is at least one fragment; no fragment holds the separator; joining the fragments with the separator gives back the text |
| JsString.SplitJoin | script.js:15 | splitting fragments that were joined with a separator they do not hold gives back those fragments |
| JsString.SplitConcat | script.js:15 | splitting at a separator gives the fragments of the part before it, then those of the part after it |
| JsString.StartsWith | script.js:22-29 | a text starts with a prefix exactly when the prefix is no longer than the text and agrees with it character by character |
| JsString.Includes | script.js:25-29 | the empty text is included in every text, and a text includes only texts no longer than itself |
| JsString.StartsIncludes | script.js:26-29 | a text that starts with a name also includes it |
| JsString.SplitHeadAt | script.js:19-20 | the first fragment of a split ends at the first separator, or at the end of the text when there is none |
| JsString.IncludesSplit | script.js:25-29 | an occurrence cannot straddle a character the searched text lacks |
| JsString.RemoveBraces | script.js:22-29 | no brace is left and no character is added |
| JsString.RemoveBracesKeeps | script.js:22-29 | every character other than a brace keeps its number of occurrences |
| JsString.StripTrailingComma | script.js:22-29 | the result is the text or the text without one final comma; it is shorter exactly when the text ends with a comma |
| Bibtex.NonBlank | script.js:15 | keeps only fragments of the input that are not white space only |
| Bibtex.NonBlankKeeps | script.js:15 | every fragment that is not white space only is kept as often as it occurs in the input |
| Bibtex.Segments | script.js:15 | no entry holds `@` and no entry is blank |
| Bibtex.SegmentsConcat | script.js:15 | the entries of two texts joined by `@` are the entries of the first, then those of the second: source order |
| Bibtex.SegmentsLeading | script.js:15 | non-blank text before the first `@` is the first entry |
| Bibtex.Lines | script.js:18 | one line per line-feed-separated fragment, each the trimmed fragment, so no line starts or ends with white space |
| Bibtex.Header | script.js:19-20 | fails with `NoKey` exactly when the first line has no `{`; the type holds no `{`; the key holds no `{` and no `,` |
| Bibtex.HeaderFields | script.js:19-20 | the type is the trimmed text before the first `{`; the key is the trimmed text from there up to the next `,`, the next `{` or the end |
| Bibtex.Matches | script.js:22-29 | a line accepted by a `find` callback holds the text it was tested for: a `startsWith` match includes its prefix, and the venue's test includes `journal` or `booktitle` |
| Bibtex.Find | script.js:22-29 | the index returned is of a matching line with no matching line before it; none is returned exactly when no line matches |
| Bibtex.ValueText | script.js:22-29 | undefined exactly when the line has no `=`; otherwise holds no `=` |
| Bibtex.ValueTextAt | script.js:22-29 | the value is the text right after the first `=`, up to the next `=` or the end of the line |
| Bibtex.Clean | script.js:22-29 | no braces remain, and no `=` appears that the raw text lacks |
| Bibtex.CleanComma | script.js:22-29 | with comma stripping, one final comma of the brace-free trimmed text is dropped, and without it nothing is |
| Bibtex.Field | script.js:22-25 | fails exactly when no line matches or the first matching line has no `=`, with `NoFieldLine` or `NoValue`; a value holds no brace and no `=` |
| Bibtex.FieldAt | script.js:22-25 | when the first matching line has an `=`, the field is read, and it is that line's value text, cleaned |
| Bibtex.Required | script.js:22-24 | a required field fails only with `NoFieldLine` or `NoValue` naming that field, never on the key; a value read is free of braces and `=` |
| Bibtex.Venue | script.js:25 | the venue fails only with `NoFieldLine` or `NoValue` naming `journal`, never on the key; a value read is free of braces and `=` |
| Bibtex.FieldOk | script.js:22-25 | a field is read exactly when the first matching line has an `=` |
| Bibtex.Optional | script.js:26-29 | fails only with `NoValue` naming the field, since the `includes` lookup always finds a line once a line starts with the name; `''` when no line starts with the name; otherwise there is a line including the name at or before the first line starting with it |
| Bibtex.OptionalFromLine | script.js:26-29 | once a line starts with the name, the optional field is the value text of the first line that includes the name, cleaned |
| Bibtex.OptionalOk | script.js:26-29 | an optional field is read exactly when no line starts with the name or the first line including it has an `=` |
| Bibtex.OptionalReadsEarlierLine | script.js:26 | when the title line includes `pages`, the pages value is the title, read from that earlier line |
| Bibtex.RequiredFields | script.js:22-25 | an error is about a field, never the key; the title, author, year and venue are free of braces and `=` |
| Bibtex.OptionalFields | script.js:26-29 | an error is about a field, never the key; pages, doi, abstract and url are free of braces and `=` |
| Bibtex.ParseFields | script.js:22-29 | a failure after the header names a field, never the key |
| Bibtex.ParseEntry | script.js:18-29 | a failure on the key means the first line has no `{`; a read publication's type holds no `{` and its key holds no `{` and no `,` (its full contract is carried by `Bibtex.ParseEntryOk`, `Bibtex.ParseEntryFields` and `BibtexFormat.ReadWritten`) |
| Bibtex.ParseEntryOk | script.js:18-29 | an entry is read exactly when its first line has `{`, each required field's first line has an `=` and each optional field is readable |
| Bibtex.ParseEntryNoKey | script.js:19-20 | the entry fails on the key exactly when its first line has no `{` |
| Bibtex.ParseEntryFields | script.js:19-29 | each field of a read publication is what its own extraction gives |
| Bibtex.ParsedValuesClean | script.js:19-29 | every value of a read publication is free of braces and `=`; the key holds no `,` |
| Bibtex.NoTitleEntry | script.js:18-22 | an entry whose first line has a `{` and none of whose lines starts with `title` fails with `NoFieldLine("title")` |
| Bibtex.TitleMissing | script.js:18-22 | the same for an entry given as its lines before the split, as an entry written on its header line is |
| Bibtex.FieldLineRoundTrip | script.js:22-29 | a line `name = {v},` gives the value `v`, or `v,` without comma stripping |
| BibtexFormat.BibliographySegments | script.js:15 | segmenting a file of written entries gives back those entries in order |
| BibtexFormat.WrittenLines | script.js:18 | the trimmed lines of a written entry are the lines written |
| BibtexFormat.RequiredAt | script.js:22-24 | when line `k` is a `startsWith`-only field, the header passes `HeaderAvoids` and the field's value is free of braces and `=`, the field is read from its own written line, whatever the values before it hold |
| BibtexFormat.OptionalAt | script.js:26-29 | when line `k` is an `includes`-searched field, the header passes `HeaderAvoids`, the values pass `ValuesAvoidLater` (none holds the name of an `includes` lookup of a later line) and the field's value is free of braces and `=`, the field is read from its own written line |
| BibtexFormat.ReadWritten | script.js:18-29 | an entry written from a publication meeting `WritableEntry` (type and key as `HeaderAvoids` says; values free of braces, `=` and line feeds, and of the `includes`-searched names of later lines) reads back as that publication, except that the abstract gains the comma ending its line |
| Publications.Link | script.js:33 | the DOI resolver followed by the DOI when there is a DOI, else the `url` field |
| Publications.DoiLabel | script.js:37 | empty exactly when there is no DOI; otherwise `DOI: ` followed by the DOI |
| Publications.Summary | script.js:37 | `In <venue>, <year>, pp. <pages>. ` alone when there is no DOI, and followed by `DOI: ` and the DOI otherwise |
| Publications.SummaryParts | script.js:37 | the summary is `In <venue>, <year>, pp. <pages>. ` followed by the DOI label |
| Publications.SummaryShowsDoi | script.js:37 | two summaries with the same venue, year and pages are equal only when the DOIs are |
| Publications.ToItem | script.js:31-41 | the item's heading, authors and abstract are the title, author and abstract; its link is the DOI resolver and the DOI when there is one, else the url; its summary is `In <venue>, <year>, pp. <pages>. ` followed by the DOI label |
| Publications.RenderEntry | script.js:18-41 | an entry gives an item exactly when it is read, and then the item of its publication; otherwise the entry's error |
| Publications.Process | script.js:17-43 | the items are at most one per entry; there is no failure exactly when every entry gave an item; a failure is the error of the entry right after the last item |
| Publications.ProcessItem | script.js:17-42 | item `k` is what entry `k` gave |
| Publications.ProcessAppend | script.js:17-43 | processing more entries continues where the shorter list stopped, unless it stopped on an error |
| Publications.Page | script.js:15-43 | no more items than entries, and no error exactly when every entry is shown (with `Publications.PageItem`, `Publications.PageFailure` and `Publications.BibliographyPage`) |
| Publications.PageItem | script.js:15-42 | every item shown is the item of the entry of the file at the same position, which was read |
| Publications.PageFailure | script.js:17-45 | with no error every entry is shown; with an error it is the entry right after the items shown that failed, with that error |
| Publications.BibliographyPage | script.js:15-42 | a file of entries written from publications meeting `WritableEntry`, with no `@` in them, is shown in full, one item per entry in file order, with no error |
| Publications.ProcessEntries | script.js:17-43 | the loop leaves the items and the error that `Process` describes |
| Publications.LoadPublications | script.js:14-43 | the callback leaves the items and the error of `Page` for the fetched text |

## Left out

- The `fetch` of `resources/bib.bib`, `response.text()` and the `console.error` in `.catch` (script.js:12-13, 45) are network and console I/O. The fetched text is a parameter, and the logged error is the `failure` output. A failed fetch is not modelled.
- `createElement`, the `innerHTML` template and `appendChild` (script.js:31-42) are DOM calls. An item holds only the strings the template inserts: link target, title, authors, summary and abstract. The markup, the template's indentation and the browser's interpretation of the inserted text as HTML are not modelled.
- `showSection`, `changeLanguage`, `toggleDropdown`, the window click handler and the dark-mode functions in script.js, and all of symbol.js, are DOM and style manipulation with no parsing in them.
- The JavaScript `TypeError` object is not modelled. A throw becomes a `ParseError` naming the step and the field.
- `JsString.IsWhitespace` is a fixed set: ECMAScript's WhiteSpace and LineTerminator code points, with the Unicode space separators of current Unicode. It does not follow a different Unicode version.
- Bibtex.Optional: states only one direction of "`''` exactly when no line starts with the name". The converse does not hold in the code: a line `pages = {},` also gives `''`.
