/**
 * The BibTeX reader inside `loadPublications`: the fetched text is cut into
 * entries at every `@`, each entry into trimmed lines, and each field is read
 * from the first line that matches it. Every `TypeError` the JavaScript throws
 * (a `split` or `trim` called on `undefined`) is an `Err` here.
 */
module Bibtex {
  import opened Wrappers
  import opened JsString

  /** The strings one entry contributes to the page. */
  datatype Publication = Publication(
    entryType: string,
    citationKey: string,
    title: string,
    author: string,
    year: string,
    venue: string,
    pages: string,
    doi: string,
    abstractText: string,
    url: string)

  /** Where reading an entry throws. */
  datatype ParseError =
    | NoKey                       // the first line has no `{`, so `split('{')[1]` is undefined
    | NoFieldLine(field: string)  // `lines.find(...)` found no line
    | NoValue(field: string)      // the line found has no `=`, so `split('=')[1]` is undefined

  // ---------------------------------------------------------------------------
  // Segmentation: `data.split('@').filter(entry => entry.trim() !== '')`

  /**
   * The filter: keeps, in order, the fragments that are not white space
   * only. `entry.trim() === ''` is `AllWhitespace(entry)` by `Trim`'s contract.
   */
  function NonBlank(fragments: seq<string>): (r: seq<string>)
    ensures forall x :: x in r ==> x in fragments && !AllWhitespace(x)
  {
    if fragments == [] then []
    else
      var head := if AllWhitespace(fragments[0]) then [] else [fragments[0]];
      assert fragments == [fragments[0]] + fragments[1..];
      head + NonBlank(fragments[1..])
  }

  /** A fragment that is not blank is kept as often as it occurs. */
  lemma {:induction false} NonBlankKeeps(fragments: seq<string>, x: string)
    requires !AllWhitespace(x)
    ensures multiset(NonBlank(fragments))[x] == multiset(fragments)[x]
  {
    if fragments != [] {
      NonBlankKeeps(fragments[1..], x);
      var f, rest := fragments[0], fragments[1..];
      assert fragments == [f] + rest;
      assert multiset(fragments)[x] == multiset([f])[x] + multiset(rest)[x];
      if AllWhitespace(f) {
        assert NonBlank(fragments) == NonBlank(rest);
        assert f != x;
      } else {
        assert NonBlank(fragments) == [f] + NonBlank(rest);
        assert multiset(NonBlank(fragments))[x] == multiset([f])[x] + multiset(NonBlank(rest))[x];
      }
    }
  }

  lemma {:induction false} NonBlankAppend(a: seq<string>, b: seq<string>)
    ensures NonBlank(a + b) == NonBlank(a) + NonBlank(b)
  {
    if a == [] {
      assert a + b == b;
    } else {
      assert (a + b)[0] == a[0];
      assert (a + b)[1..] == a[1..] + b;
      NonBlankAppend(a[1..], b);

    }
  }

  /** The entries of the bibliography text: non-blank and free of `@`. */
  function Segments(data: string): (entries: seq<string>)
    ensures forall k :: 0 <= k < |entries| ==> '@' !in entries[k] && !AllWhitespace(entries[k])
  {
    var fragments := Split(data, '@');
    assert forall x :: x in fragments ==> '@' !in x;
    NonBlank(fragments)
  }

  /** Text with no `@` is one entry, unless it is blank. */
  lemma SegmentsOfFragment(s: string)
    requires '@' !in s
    ensures Segments(s) == if AllWhitespace(s) then [] else [s]
  {
    SplitJoin([s], '@');
    assert Split(s, '@') == [s];
    assert NonBlank([s]) == (if AllWhitespace(s) then [] else [s]) + NonBlank([s][1..]);
  }

  /** An `@` separates the entries of the text before it from those of the text after it, in order. */
  lemma SegmentsConcat(a: string, b: string)
    ensures Segments(a + "@" + b) == Segments(a) + Segments(b)
  {
    SplitConcat(a, b, '@');
    NonBlankAppend(Split(a, '@'), Split(b, '@'));
  }

  /** Non-blank text before the first `@` (or the whole text, if it has none) is the first entry. */
  lemma SegmentsLeading(data: string, head: string)
    requires StartsWith(data, head) && '@' !in head && !AllWhitespace(head)
    requires |head| == |data| || data[|head|] == '@'
    ensures |Segments(data)| > 0 && Segments(data)[0] == head
  {
    SegmentsOfFragment(head);
    if |head| < |data| {
      var rest := data[|head| + 1..];
      assert data == head + "@" + rest;
      SegmentsConcat(head, rest);
    } else {
      assert data == head;
    }
  }

  // ---------------------------------------------------------------------------
  // Lines: `entry.split('\n').map(line => line.trim())`

  function Lines(entry: string): (lines: seq<string>)
    ensures |lines| == |Split(entry, '\n')| && |lines| >= 1
    ensures forall k :: 0 <= k < |lines| ==>
      lines[k] == Trim(Split(entry, '\n')[k]) && IsTrimmed(lines[k]) && '\n' !in lines[k]
  {
    var raw := Split(entry, '\n');
    seq(|raw|, k requires 0 <= k < |raw| => Trim(raw[k]))
  }

  /** The lines of text assembled from newline-free lines are those lines, trimmed. */
  lemma LinesOfJoin(raw: seq<string>)
    requires |raw| >= 1
    requires forall k :: 0 <= k < |raw| ==> '\n' !in raw[k]
    ensures |Lines(Join(raw, '\n'))| == |raw|
    ensures forall k :: 0 <= k < |raw| ==> Lines(Join(raw, '\n'))[k] == Trim(raw[k])
  {
    SplitJoin(raw, '\n');
  }

  // ---------------------------------------------------------------------------
  // Header: `lines[0].split('{')[0].trim()` and `lines[0].split('{')[1].split(',')[0].trim()`

  /** Entry type and citation key; throws when the first line has no `{`. */
  function Header(first: string): (r: Result<(string, string), ParseError>)
    ensures r.Err? <==> '{' !in first
    ensures r.Err? ==> r.error == NoKey
    ensures r.Ok? ==> '{' !in r.value.0 && '{' !in r.value.1 && ',' !in r.value.1
  {
    var pieces := Split(first, '{');
    if |pieces| < 2 then Err(NoKey)
    else
      var keyText := Split(pieces[1], ',')[0];
      assert '{' !in pieces[0] && '{' !in pieces[1];
      assert '{' !in keyText by { SplitHead(pieces[1], ','); }
      Ok((Trim(pieces[0]), Trim(keyText)))
  }

  /**
   * With `i` the first `{` of the line, the entry type is the trimmed text
   * before it and the key the trimmed text from just after it up to the next
   * `,`, the next `{` or the end of the line, whichever comes first.
   */
  lemma HeaderFields(first: string, i: nat, j: nat)
    requires i < |first| && first[i] == '{' && '{' !in first[..i]
    requires i + 1 <= j <= |first|
    requires ',' !in first[i + 1..j] && '{' !in first[i + 1..j]
    requires j == |first| || first[j] == ',' || first[j] == '{'
    ensures Header(first) == Ok((Trim(first[..i]), Trim(first[i + 1..j])))
  {
    var rest := first[i + 1..];
    var k := j - (i + 1);
    SplitAt(first, '{', i);
    assert rest[..k] == first[i + 1..j];
    var h1 := Split(rest, '{')[0];
    if j < |first| && first[j] == ',' {
      KeyBeforeComma(rest, k);
    } else {
      SplitHeadAt(rest, '{', k);
      assert h1[..k] == h1;
      SplitHeadAt(h1, ',', k);
    }
  }

  /** A `,` before any `{` ends the key. */
  lemma KeyBeforeComma(rest: string, k: nat)
    requires k < |rest| && rest[k] == ',' && ',' !in rest[..k] && '{' !in rest[..k]
    ensures Split(Split(rest, '{')[0], ',')[0] == rest[..k]
  {
    var h1 := Split(rest, '{')[0];
    SplitHead(rest, '{');
    forall m | 0 <= m < k ensures rest[m] != '{' {
      assert rest[..k][m] == rest[m];
    }
    assert |h1| > k;
    assert h1[..k] == rest[..k];
    SplitHeadAt(h1, ',', k);
  }

  // ---------------------------------------------------------------------------
  // Fields: `lines.find(...).split('=')[1].trim().replace(/[{}]/g, '').replace(/,$/g, '')`

  /** The test a `find` callback applies to a line. */
  datatype LinePattern =
    | Prefix(text: string)                          // line.startsWith(text)
    | Infix(text: string)                           // line.includes(text)
    | PrefixOrInfix(prefix: string, infix: string)  // line.startsWith(prefix) || line.includes(infix)

  /** The callback's verdict on one line; a line that matches holds the text it was tested for. */
  predicate Matches(line: string, p: LinePattern)
    ensures p.Prefix? && Matches(line, p) ==> Includes(line, p.text)
    ensures p.PrefixOrInfix? && Matches(line, p) ==> Includes(line, p.prefix) || Includes(line, p.infix)
  {
    match p
    case Prefix(t) => StartsIncludes(line, t); StartsWith(line, t)
    case Infix(t) => Includes(line, t)
    case PrefixOrInfix(a, b) => StartsIncludes(line, a); StartsWith(line, a) || Includes(line, b)
  }

  /** `lines.find(...)`, giving the index of the line it returns. */
  function Find(lines: seq<string>, p: LinePattern): (r: Option<nat>)
    ensures r.Some? ==> r.value < |lines| && Matches(lines[r.value], p)
    ensures r.Some? ==> forall k :: 0 <= k < r.value ==> !Matches(lines[k], p)
    ensures r.None? <==> forall k :: 0 <= k < |lines| ==> !Matches(lines[k], p)
  {
    if lines == [] then None
    else if Matches(lines[0], p) then Some(0)
    else match Find(lines[1..], p)
      case None =>
        assert forall k :: 0 < k < |lines| ==> lines[k] == lines[1..][k - 1];
        None
      case Some(i) =>
        assert forall k :: 0 < k < i + 1 ==> lines[k] == lines[1..][k - 1];
        Some(i + 1)
  }

  /** Line `i` is the first that matches `p`: what `find` returns, described without it. */
  predicate FirstMatch(lines: seq<string>, p: LinePattern, i: nat) {
    i < |lines| && Matches(lines[i], p) && forall k :: 0 <= k < i ==> !Matches(lines[k], p)
  }

  lemma FindFirstMatch(lines: seq<string>, p: LinePattern, i: nat)
    requires FirstMatch(lines, p, i)
    ensures Find(lines, p) == Some(i)
  {
  }

  /** `line.split('=')[1]`: undefined without `=`, else the text up to the next `=` or the end. */
  function ValueText(line: string): (r: Option<string>)
    ensures r.None? <==> '=' !in line
    ensures r.Some? ==> '=' !in r.value
  {
    var parts := Split(line, '=');
    if |parts| < 2 then None else Some(parts[1])
  }

  /** With `i` the first `=` of the line, the value is what follows it up to the second `=` or the end. */
  lemma ValueTextAt(line: string, i: nat)
    requires i < |line| && line[i] == '=' && '=' !in line[..i]
    ensures ValueText(line).Some?
    ensures var v := ValueText(line).value;
      i + 1 + |v| <= |line| && line[i + 1..i + 1 + |v|] == v && '=' !in v
      && (i + 1 + |v| == |line| || line[i + 1 + |v|] == '=')
  {
    var rest := line[i + 1..];
    var v := Split(rest, '=')[0];
    assert ValueText(line) == Some(v) by {
      SplitAt(line, '=', i);
      assert Split(line, '=') == [line[..i]] + Split(rest, '=');
    }
    SplitHead(rest, '=');
    assert |v| <= |rest| && v == rest[..|v|] && '=' !in v;
    assert line[i + 1..i + 1 + |v|] == rest[..|v|];
    if |v| < |rest| {
      assert line[i + 1 + |v|] == rest[|v|];
    }
  }

  /**
   * `.trim().replace(/[{}]/g, '')`, followed by `.replace(/,$/g, '')` when
   * `stripComma`: no brace is left, and a comma is taken off only at the very end.
   */
  function Clean(raw: string, stripComma: bool): (v: string)
    ensures '{' !in v && '}' !in v
    ensures '=' !in raw ==> '=' !in v
  {
    var b := RemoveBraces(Trim(raw));
    if stripComma then StripTrailingComma(b) else b
  }

  /** With comma stripping one final comma of the brace-free trimmed text is dropped; without it, nothing is. */
  lemma CleanComma(raw: string, stripComma: bool)
    ensures var b, v := RemoveBraces(Trim(raw)), Clean(raw, stripComma);
      if stripComma then
        (v == b || v + [','] == b) && (b != [] && b[|b| - 1] == ',' ==> v + [','] == b)
      else v == b
  {
  }

  /** Reads the field from the first line matching `p`; `name` is what the error reports. */
  function Field(lines: seq<string>, name: string, p: LinePattern, stripComma: bool): (r: Result<string, ParseError>)
    ensures r.Err? <==> Find(lines, p).None? || '=' !in lines[Find(lines, p).value]
    ensures r.Err? ==> r.error == NoFieldLine(name) || r.error == NoValue(name)
    ensures r.Err? && Find(lines, p).Some? ==> r.error == NoValue(name)
    ensures r.Ok? ==> '{' !in r.value && '}' !in r.value && '=' !in r.value
  {
    match Find(lines, p)
    case None => Err(NoFieldLine(name))
    case Some(i) =>
      match ValueText(lines[i])
      case None => Err(NoValue(name))
      case Some(raw) => Ok(Clean(raw, stripComma))
  }

  /** When the first matching line has an `=`, the field is read: the value text of that line (see `ValueTextAt`), cleaned. */
  lemma FieldAt(lines: seq<string>, name: string, p: LinePattern, stripComma: bool, i: nat, j: nat)
    requires FirstMatch(lines, p, i)
    requires j < |lines[i]| && lines[i][j] == '=' && '=' !in lines[i][..j]
    ensures ValueText(lines[i]).Some?
    ensures Field(lines, name, p, stripComma) == Ok(Clean(ValueText(lines[i]).value, stripComma))
  {
    FindFirstMatch(lines, p, i);
    ValueTextAt(lines[i], j);
    FieldOfLine(lines, name, p, stripComma, i, ValueText(lines[i]).value);
  }

  lemma FieldOfLine(lines: seq<string>, name: string, p: LinePattern, stripComma: bool, i: nat, v: string)
    requires Find(lines, p) == Some(i) && ValueText(lines[i]) == Some(v)
    ensures Field(lines, name, p, stripComma) == Ok(Clean(v, stripComma))
  {
  }

  /** `title`, `author`, `year`: read unconditionally from the first line starting with the name. */
  function Required(lines: seq<string>, name: string): (r: Result<string, ParseError>)
    ensures r.Err? ==> r.error == NoFieldLine(name) || r.error == NoValue(name)
    ensures r.Err? ==> !r.error.NoKey?
    ensures r.Ok? ==> IsCleanValue(r.value)
  {
    Field(lines, name, Prefix(name), true)
  }

  /** The venue: the first line that starts with `journal` or anywhere contains `booktitle`. */
  function Venue(lines: seq<string>): (r: Result<string, ParseError>)
    ensures r.Err? ==> r.error == NoFieldLine("journal") || r.error == NoValue("journal")
    ensures r.Err? ==> !r.error.NoKey?
    ensures r.Ok? ==> IsCleanValue(r.value)
  {
    Field(lines, "journal", PrefixOrInfix("journal", "booktitle"), true)
  }

  /**
   * `pages`, `doi`, `abstract`, `url`: `''` unless some line starts with the
   * name; then read from the first line that merely includes the name.
   */
  function Optional(lines: seq<string>, name: string, stripComma: bool): (r: Result<string, ParseError>)
    ensures r.Err? ==> r.error == NoValue(name)
    ensures r.Ok? ==> IsCleanValue(r.value)
    ensures Find(lines, Prefix(name)).None? ==> r == Ok("")
    ensures Find(lines, Prefix(name)).Some? ==>
      Find(lines, Infix(name)).Some? && Find(lines, Infix(name)).value <= Find(lines, Prefix(name)).value
  {
    if Find(lines, Prefix(name)).None? then Ok("")
    else
      var j := Find(lines, Prefix(name)).value;
      StartsIncludes(lines[j], name);
      Field(lines, name, Infix(name), stripComma)
  }

  /** One entry, read in the order the code reads it; the first failing step decides the error. */
  function ParseEntry(entry: string): (r: Result<Publication, ParseError>)
    ensures r.Err? && r.error.NoKey? ==> '{' !in Lines(entry)[0]
    ensures r.Ok? ==> '{' !in r.value.entryType && '{' !in r.value.citationKey && ',' !in r.value.citationKey
  {
    var lines := Lines(entry);
    var header :- Header(lines[0]);
    ParseFields(lines, header)
  }

  /** The fields of an entry whose header has been read, in the order the code reads them. */
  function ParseFields(lines: seq<string>, header: (string, string)): (r: Result<Publication, ParseError>)
    ensures r.Err? ==> !r.error.NoKey?
    ensures r.Ok? ==> r.value.entryType == header.0 && r.value.citationKey == header.1
  {
    var required :- RequiredFields(lines);
    var optional :- OptionalFields(lines);
    Ok(Publication(header.0, header.1, required.0, required.1, required.2, required.3,
                   optional.0, optional.1, optional.2, optional.3))
  }

  /** Title, author, year and venue (script.js:22-25). */
  function RequiredFields(lines: seq<string>): (r: Result<(string, string, string, string), ParseError>)
    ensures r.Err? ==> !r.error.NoKey?
    ensures r.Ok? ==> IsCleanValue(r.value.0) && IsCleanValue(r.value.1) && IsCleanValue(r.value.2) && IsCleanValue(r.value.3)
  {
    var title :- Required(lines, "title");
    var author :- Required(lines, "author");
    var year :- Required(lines, "year");
    var venue :- Venue(lines);
    Ok((title, author, year, venue))
  }

  /** Pages, DOI, abstract and URL (script.js:26-29); only the abstract keeps its trailing comma. */
  function OptionalFields(lines: seq<string>): (r: Result<(string, string, string, string), ParseError>)
    ensures r.Err? ==> !r.error.NoKey?
    ensures r.Ok? ==> IsCleanValue(r.value.0) && IsCleanValue(r.value.1) && IsCleanValue(r.value.2) && IsCleanValue(r.value.3)
  {
    var pages :- Optional(lines, "pages", true);
    var doi :- Optional(lines, "doi", true);
    var abstractText :- Optional(lines, "abstract", false);
    var url :- Optional(lines, "url", true);
    Ok((pages, doi, abstractText, url))
  }

  // ---------------------------------------------------------------------------
  // Properties of one entry

  /** Some line matches `p`, and the first such line has an `=`. */
  ghost predicate HasValue(lines: seq<string>, p: LinePattern) {
    exists i: nat :: FirstMatch(lines, p, i) && '=' in lines[i]
  }

  /** An optional field reads without throwing: no line starts with the name, or the first line including it has an `=`. */
  ghost predicate OptionalReadable(lines: seq<string>, name: string) {
    (forall k :: 0 <= k < |lines| ==> !StartsWith(lines[k], name)) || HasValue(lines, Infix(name))
  }

  /** A value as it is stored: no braces and no `=` left. */
  predicate IsCleanValue(v: string) {
    '{' !in v && '}' !in v && '=' !in v
  }

  lemma FieldOk(lines: seq<string>, name: string, p: LinePattern, stripComma: bool)
    ensures Field(lines, name, p, stripComma).Ok? <==> HasValue(lines, p)
  {
    if HasValue(lines, p) {
      var i: nat :| FirstMatch(lines, p, i) && '=' in lines[i];
      FindFirstMatch(lines, p, i);
    }
    if Field(lines, name, p, stripComma).Ok? {
      var i := Find(lines, p).value;
      assert FirstMatch(lines, p, i);
    }
  }

  lemma OptionalOk(lines: seq<string>, name: string, stripComma: bool)
    ensures Optional(lines, name, stripComma).Ok? <==> OptionalReadable(lines, name)
  {
    FieldOk(lines, name, Infix(name), stripComma);
    if Find(lines, Prefix(name)).Some? {
      var j := Find(lines, Prefix(name)).value;
      assert !StartsWith(lines[j], name) ==> false;
    }
  }

  /**
   * An entry is read exactly when its first line has a `{`, the first lines
   * for `title`, `author`, `year` and the venue exist and hold an `=`, and
   * every optional field that is present at all can be read.
   */
  lemma ParseEntryOk(entry: string)
    ensures var lines := Lines(entry);
      ParseEntry(entry).Ok? <==>
        '{' in lines[0]
        && HasValue(lines, Prefix("title")) && HasValue(lines, Prefix("author"))
        && HasValue(lines, Prefix("year")) && HasValue(lines, PrefixOrInfix("journal", "booktitle"))
        && OptionalReadable(lines, "pages") && OptionalReadable(lines, "doi")
        && OptionalReadable(lines, "abstract") && OptionalReadable(lines, "url")
  {
    var lines := Lines(entry);
    FieldOk(lines, "title", Prefix("title"), true);
    FieldOk(lines, "author", Prefix("author"), true);
    FieldOk(lines, "year", Prefix("year"), true);
    FieldOk(lines, "journal", PrefixOrInfix("journal", "booktitle"), true);
    OptionalOk(lines, "pages", true);
    OptionalOk(lines, "doi", true);
    OptionalOk(lines, "abstract", false);
    OptionalOk(lines, "url", true);
  }

  /** `NoKey` is reported exactly when the first line has no `{`; it is checked before any field. */
  lemma ParseEntryNoKey(entry: string)
    ensures ParseEntry(entry) == Err(NoKey) <==> '{' !in Lines(entry)[0]
  {
    var lines := Lines(entry);
    if '{' in lines[0] {
      assert Header(lines[0]).Ok?;
      assert ParseEntry(entry) == ParseFields(lines, Header(lines[0]).value);
    }
  }

  lemma RequiredFieldsValues(lines: seq<string>)
    requires RequiredFields(lines).Ok?
    ensures var v := RequiredFields(lines).value;
      Required(lines, "title") == Ok(v.0) && Required(lines, "author") == Ok(v.1)
      && Required(lines, "year") == Ok(v.2) && Venue(lines) == Ok(v.3)
  {
    var t, a, y, v := Required(lines, "title"), Required(lines, "author"), Required(lines, "year"), Venue(lines);
    assert t.Ok? && a.Ok? && y.Ok? && v.Ok?;
    assert RequiredFields(lines) == Ok((t.value, a.value, y.value, v.value));
  }

  lemma OptionalFieldsValues(lines: seq<string>)
    requires OptionalFields(lines).Ok?
    ensures var v := OptionalFields(lines).value;
      Optional(lines, "pages", true) == Ok(v.0) && Optional(lines, "doi", true) == Ok(v.1)
      && Optional(lines, "abstract", false) == Ok(v.2) && Optional(lines, "url", true) == Ok(v.3)
  {
    var p, d, a, u := Optional(lines, "pages", true), Optional(lines, "doi", true),
      Optional(lines, "abstract", false), Optional(lines, "url", true);
    assert p.Ok? && d.Ok? && a.Ok? && u.Ok?;
    assert OptionalFields(lines) == Ok((p.value, d.value, a.value, u.value));
  }

  /** What a parsed entry holds: the header pieces and every field value, each read as described above. */
  lemma ParseEntryFields(entry: string)
    requires ParseEntry(entry).Ok?
    ensures var lines, p := Lines(entry), ParseEntry(entry).value;
      Header(lines[0]) == Ok((p.entryType, p.citationKey))
      && Required(lines, "title") == Ok(p.title)
      && Required(lines, "author") == Ok(p.author)
      && Required(lines, "year") == Ok(p.year)
      && Venue(lines) == Ok(p.venue)
      && Optional(lines, "pages", true) == Ok(p.pages)
      && Optional(lines, "doi", true) == Ok(p.doi)
      && Optional(lines, "abstract", false) == Ok(p.abstractText)
      && Optional(lines, "url", true) == Ok(p.url)
  {
    var lines := Lines(entry);
    var h := Header(lines[0]).value;
    assert ParseEntry(entry) == ParseFields(lines, h);
    RequiredFieldsValues(lines);
    OptionalFieldsValues(lines);
  }

  /**
   * Every stored value is free of braces and `=`; the entry type has no `{`
   * and the citation key neither `{` nor `,`.
   */
  lemma ParsedValuesClean(entry: string)
    requires ParseEntry(entry).Ok?
    ensures var p := ParseEntry(entry).value;
      '{' !in p.entryType && '{' !in p.citationKey && ',' !in p.citationKey
      && IsCleanValue(p.title) && IsCleanValue(p.author) && IsCleanValue(p.year)
      && IsCleanValue(p.venue) && IsCleanValue(p.pages) && IsCleanValue(p.doi)
      && IsCleanValue(p.abstractText) && IsCleanValue(p.url)
  {
    var lines := Lines(entry);
    var h := Header(lines[0]).value;
    assert ParseEntry(entry) == ParseFields(lines, h);
    var rq, op := RequiredFields(lines).value, OptionalFields(lines).value;
    assert ParseEntry(entry).value == Publication(h.0, h.1, rq.0, rq.1, rq.2, rq.3, op.0, op.1, op.2, op.3);
  }

  /**
   * The guard of an optional field looks for a line starting with its name,
   * but the value is taken from the first line that includes the name: when
   * the title mentions "pages", the title line, which comes first, gives the
   * pages.
   */
  lemma OptionalReadsEarlierLine(title: string, pages: string)
    requires IsCleanValue(title) && IsCleanValue(pages) && Includes(title, "pages")
    ensures var lines := ["a{k,", FieldLine("title", title), FieldLine("pages", pages)];
      Find(lines, Infix("pages")) == Some(1) && Find(lines, Prefix("pages")) == Some(2)
      && Optional(lines, "pages", true) == Ok(title)
  {
    var lines := ["a{k,", FieldLine("title", title), FieldLine("pages", pages)];
    EarlierLineFound(lines, title, pages);
    FieldLineRoundTrip("title", title);
    OptionalFromLine(lines, "pages", 1, " {" + title + "},");
  }

  lemma EarlierLineFound(lines: seq<string>, title: string, pages: string)
    requires Includes(title, "pages")
    requires lines == ["a{k,", FieldLine("title", title), FieldLine("pages", pages)]
    ensures Find(lines, Infix("pages")) == Some(1) && Find(lines, Prefix("pages")) == Some(2)
  {
    IncludesShort(lines[0], "pages");
    assert lines[1][0] == 't';
    assert lines[1] == "title = {" + title + "},";
    IncludesWithin("title = {", title, "},", "pages");
    assert lines[2][..5] == "pages";
    FindFirstMatch(lines, Prefix("pages"), 2);
    FindFirstMatch(lines, Infix("pages"), 1);
  }

  /** A present optional field is read from the first line including its name. */
  lemma OptionalFromLine(lines: seq<string>, name: string, i: nat, raw: string)
    requires Find(lines, Prefix(name)).Some? && Find(lines, Infix(name)) == Some(i)
    requires ValueText(lines[i]) == Some(raw)
    ensures forall strip :: Optional(lines, name, strip) == Ok(Clean(raw, strip))
  {
  }

  /**
   * An entry in which no trimmed line starts with `title` fails on the
   * title, even when `title = ...` stands later on a line, as it does when
   * all fields are written on the header line.
   */
  lemma TitleMissing(raw: seq<string>)
    requires |raw| >= 1 && forall k :: 0 <= k < |raw| ==> '\n' !in raw[k]
    requires '{' in Trim(raw[0])
    requires forall k :: 0 <= k < |raw| ==> !StartsWith(Trim(raw[k]), "title")
    ensures ParseEntry(Join(raw, '\n')) == Err(NoFieldLine("title"))
  {
    var entry := Join(raw, '\n');
    LinesOfJoin(raw);
    var lines := Lines(entry);
    forall k | 0 <= k < |lines| ensures !StartsWith(lines[k], "title") {
      assert lines[k] == Trim(raw[k]);
    }
    assert lines[0] == Trim(raw[0]);
    NoTitleEntry(entry);
  }

  lemma NoTitleEntry(entry: string)
    requires '{' in Lines(entry)[0]
    requires forall k :: 0 <= k < |Lines(entry)| ==> !StartsWith(Lines(entry)[k], "title")
    ensures ParseEntry(entry) == Err(NoFieldLine("title"))
  {
    NoTitleLine(Lines(entry));
  }

  lemma NoTitleLine(lines: seq<string>)
    requires forall k :: 0 <= k < |lines| ==> !StartsWith(lines[k], "title")
    ensures forall h :: ParseFields(lines, h) == Err(NoFieldLine("title"))
  {
    assert Find(lines, Prefix("title")).None?;
    assert RequiredFields(lines) == Err(NoFieldLine("title"));
  }

  /** A line `name = {v},` as a bibliography file writes it. */
  function FieldLine(name: string, v: string): string {
    name + " = {" + v + "},"
  }

  /** The value text of a line with exactly one `=` is everything after it. */
  lemma ValueTextOfOneEquals(a: string, b: string)
    requires '=' !in a && '=' !in b
    ensures ValueText(a + "=" + b) == Some(b)
  {
    var line := a + "=" + b;
    assert line[..|a|] == a && line[|a|] == '=';
    SplitAt(line, '=', |a|);
    assert line[|a| + 1..] == b;
    SplitJoin([b], '=');
  }

  /**
   * Reading back a field line gives the value written, for any value free
   * of braces and `=`; without comma stripping (the abstract) the comma
   * that ends the line stays on.
   */
  lemma FieldLineRoundTrip(name: string, v: string)
    requires '=' !in name && IsCleanValue(v)
    ensures ValueText(FieldLine(name, v)) == Some(" {" + v + "},")
    ensures Clean(" {" + v + "},", true) == v
    ensures Clean(" {" + v + "},", false) == v + ","
  {
    FieldLineValue(name, v);
    BracedClean(v);
  }

  lemma FieldLineValue(name: string, v: string)
    requires '=' !in name && '=' !in v
    ensures ValueText(FieldLine(name, v)) == Some(" {" + v + "},")
  {
    var rest := " {" + v + "},";
    assert FieldLine(name, v) == (name + " ") + "=" + rest;
    assert '=' !in rest by {
      assert rest == " {" + v + "},";
    }
    ValueTextOfOneEquals(name + " ", rest);
  }

  lemma BracedClean(v: string)
    requires '{' !in v && '}' !in v
    ensures Clean(" {" + v + "},", true) == v
    ensures Clean(" {" + v + "},", false) == v + ","
  {
    BracedTrim(v);
    BracedRemove(v);
    var b := v + ",";
    assert b[|b| - 1] == ',' && b[..|b| - 1] == v;
  }

  lemma BracedTrim(v: string)
    ensures Trim(" {" + v + "},") == "{" + v + "},"
  {
    var braced := "{" + v + "},";
    assert braced[0] == '{' && braced[|braced| - 1] == ',';
    TrimUnique(" ", braced, "");
    assert " " + braced + "" == " {" + v + "},";
  }

  lemma BracedRemove(v: string)
    requires '{' !in v && '}' !in v
    ensures RemoveBraces("{" + v + "},") == v + ","
  {
    var tail := "}" + ",";
    assert RemoveBraces(tail) == "," by {
      RemoveBracesAppend("}", ",");
      RemoveBracesNone(",");
    }
    assert RemoveBraces(v + tail) == v + "," by {
      RemoveBracesAppend(v, tail);
      RemoveBracesNone(v);
    }
    assert RemoveBraces("{" + (v + tail)) == v + "," by {
      RemoveBracesAppend("{", v + tail);
    }
    assert "{" + v + "}," == "{" + (v + tail);
  }
}
