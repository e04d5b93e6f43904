/**
 * Entries written the way a bibliography file lays them out, one field per
 * line, and what the parser reads back from them.
 */
module BibtexFormat {
  import opened Wrappers
  import opened JsString
  import opened Bibtex

  /** The names the parser looks up with `startsWith` alone. */
  const StartNames: seq<string> := ["title", "author", "year", "journal"]

  /** A value that can stand in braces on a line of its own. */
  predicate Writable(v: string) {
    IsCleanValue(v) && '\n' !in v
  }

  /**
   * The names of the field lines, in the order they are written after the
   * header. No name is longer than a name after it, so no field's name
   * includes the name of a field written after it; which names a value may
   * hold is `ValuesAvoidLater`'s concern.
   */
  const Order: seq<string> := ["doi", "url", "year", "pages", "title", "author", "journal", "abstract"]

  /** The values of the field lines, in the same order. */
  function Values(p: Publication): seq<string> {
    [p.doi, p.url, p.year, p.pages, p.title, p.author, p.venue, p.abstractText]
  }

  /**
   * The names the parser looks up with `includes`, each with the line the
   * lookup must reach: `doi`, `url`, `pages` and `abstract` on their own
   * lines, `booktitle` on the `journal` line, where the venue is read.
   */
  const IncludedNames: seq<(string, nat)> := [("doi", 1), ("url", 2), ("pages", 4), ("booktitle", 7), ("abstract", 8)]

  /** No value includes a name looked up with `includes` whose lookup must reach a later line. */
  predicate ValuesAvoidLater(p: Publication) {
    forall i, m {:trigger Includes(Values(p)[i], m.0), m in IncludedNames} ::
      0 <= i < |Values(p)| && m in IncludedNames && i + 1 < m.1 ==> !Includes(Values(p)[i], m.0)
  }

  /**
   * The header line is passed by every lookup: neither the type nor the key
   * holds a name looked up with `includes`, and the type starts with no name
   * looked up with `startsWith` alone.
   */
  predicate HeaderAvoids(p: Publication) {
    (forall m :: m in IncludedNames ==> !Includes(p.entryType, m.0) && !Includes(p.citationKey, m.0))
    && (forall n :: n in StartNames ==> !StartsWith(p.entryType, n))
  }

  /**
   * A publication whose header and fields can be written out as an entry:
   * the type and the key are trimmed and pass `HeaderAvoids`, and no value
   * holds a brace, an `=`, a line feed or a name that a later `includes`
   * lookup looks for.
   */
  predicate WritableEntry(p: Publication) {
    IsTrimmed(p.entryType) && '{' !in p.entryType && '\n' !in p.entryType
    && IsTrimmed(p.citationKey) && '{' !in p.citationKey && ',' !in p.citationKey
    && '\n' !in p.citationKey && HeaderAvoids(p)
    && Writable(p.title) && Writable(p.author) && Writable(p.year) && Writable(p.venue)
    && Writable(p.pages) && Writable(p.doi) && Writable(p.abstractText) && Writable(p.url)
    && ValuesAvoidLater(p)
  }

  function HeaderLine(p: Publication): string {
    p.entryType + "{" + p.citationKey + ","
  }

  /** The lines of the written entry: the header, one line per field in `Order`, the closing brace. */
  function EntryLines(p: Publication): seq<string> {
    [HeaderLine(p),
     FieldLine("doi", p.doi), FieldLine("url", p.url), FieldLine("year", p.year),
     FieldLine("pages", p.pages), FieldLine("title", p.title), FieldLine("author", p.author),
     FieldLine("journal", p.venue), FieldLine("abstract", p.abstractText), "}"]
  }

  /** The field names are lower-case, distinct, sorted by length and shorter than `booktitle`. */
  lemma OrderSorted()
    ensures forall i :: 0 <= i < |Order| ==> Lower(Order[i]) && |Order[i]| < |"booktitle"|
    ensures forall i, j :: 0 <= i < j < |Order| ==> |Order[i]| <= |Order[j]| && Order[i] != Order[j]
  {
  }

  /** The layout, name by name. */
  lemma OrderAt(p: Publication)
    ensures Order[0] == "doi" && Order[1] == "url" && Order[2] == "year" && Order[3] == "pages"
    ensures Order[4] == "title" && Order[5] == "author" && Order[6] == "journal" && Order[7] == "abstract"
    ensures Values(p)[0] == p.doi && Values(p)[1] == p.url && Values(p)[2] == p.year && Values(p)[3] == p.pages
    ensures Values(p)[4] == p.title && Values(p)[5] == p.author && Values(p)[6] == p.venue && Values(p)[7] == p.abstractText
  {
  }

  /** Line `j` after the header is the field line of `Order[j - 1]`. */
  lemma EntryLineAt(p: Publication, j: nat)
    requires 1 <= j <= |Order|
    ensures EntryLines(p)[j] == FieldLine(Order[j - 1], Values(p)[j - 1])
  {
  }

  /** The entry text: its lines joined by line feeds, as it stands between two `@`. */
  function EntryText(p: Publication): string {
    Join(EntryLines(p), '\n')
  }

  /** What the parser makes of a written publication: the abstract gains the comma that ends its line. */
  function AsRead(p: Publication): Publication {
    p.(abstractText := p.abstractText + ",")
  }

  /** No field holds the `@` that separates entries. */
  predicate NoAt(p: Publication) {
    '@' !in p.entryType && '@' !in p.citationKey && '@' !in p.title && '@' !in p.author
    && '@' !in p.year && '@' !in p.venue && '@' !in p.pages && '@' !in p.doi
    && '@' !in p.abstractText && '@' !in p.url
  }

  /** Texts each written after an `@`, in order, as a bibliography file holds its entries. */
  function AtJoined(texts: seq<string>): string {
    if texts == [] then "" else AtJoined(texts[..|texts| - 1]) + "@" + texts[|texts| - 1]
  }

  /** A bibliography file holding the written entries of `ps`, in order. */
  function Bibliography(ps: seq<Publication>): string {
    AtJoined(seq(|ps|, i requires 0 <= i < |ps| => EntryText(ps[i])))
  }

  /** Segmenting texts joined after `@` gives them back, when none holds `@` or is blank. */
  lemma {:induction false} SegmentsOfAtJoined(texts: seq<string>)
    requires forall i :: 0 <= i < |texts| ==> '@' !in texts[i] && !AllWhitespace(texts[i])
    ensures Segments(AtJoined(texts)) == texts
  {
    if texts == [] {
      SegmentsOfFragment("");
    } else {
      var init, last := texts[..|texts| - 1], texts[|texts| - 1];
      assert forall i :: 0 <= i < |init| ==> init[i] == texts[i];
      assert texts == init + [last];
      SegmentsOfAtJoined(init);
      SegmentsAfter(init, last);
    }
  }

  /** One more entry after an `@` adds one more segment. */
  lemma SegmentsAfter(init: seq<string>, last: string)
    requires '@' !in last && !AllWhitespace(last)
    requires Segments(AtJoined(init)) == init
    ensures Segments(AtJoined(init + [last])) == init + [last]
  {
    var texts := init + [last];
    assert texts[..|texts| - 1] == init;
    assert AtJoined(texts) == AtJoined(init) + "@" + last;
    SegmentsConcat(AtJoined(init), last);
    SegmentsOfFragment(last);
  }

  /** Segmenting a bibliography file gives back the written entries, in order. */
  lemma BibliographySegments(ps: seq<Publication>)
    requires forall i :: 0 <= i < |ps| ==> NoAt(ps[i])
    ensures |Segments(Bibliography(ps))| == |ps|
    ensures forall i :: 0 <= i < |ps| ==> Segments(Bibliography(ps))[i] == EntryText(ps[i])
  {
    var texts := seq(|ps|, i requires 0 <= i < |ps| => EntryText(ps[i]));
    forall i | 0 <= i < |texts| ensures '@' !in texts[i] && !AllWhitespace(texts[i]) {
      EntryTextSegment(ps[i]);
    }
    SegmentsOfAtJoined(texts);
  }

  /** A written entry holds no `@` and is not blank, so it is one segment of its own. */
  lemma EntryTextSegment(p: Publication)
    requires NoAt(p)
    ensures '@' !in EntryText(p) && !AllWhitespace(EntryText(p))
  {
    var raw := EntryLines(p);
    forall k | 0 <= k < |raw| ensures '@' !in raw[k] {
    }
    JoinAvoids(raw, '\n', '@');
    var text := EntryText(p);
    assert text == raw[0] + ['\n'] + Join(raw[1..], '\n');
    assert text[|p.entryType|] == '{';
  }

  /**
   * A written entry reads back as the publication it was written from,
   * except that the abstract keeps the comma that ends its line.
   */
  lemma ReadWritten(p: Publication)
    requires WritableEntry(p)
    ensures ParseEntry(EntryText(p)) == Ok(AsRead(p))
  {
    WrittenLines(p);
    var lines := EntryLines(p);
    HeaderRead(p);
    RequiredRead(p);
    OptionalRead(p);
    var required := (p.title, p.author, p.year, p.venue);
    var optional := (p.pages, p.doi, p.abstractText + ",", p.url);
    assert ParseFields(lines, (p.entryType, p.citationKey)) == Ok(p.(abstractText := p.abstractText + ",")) by {
      assert RequiredFields(lines) == Ok(required);
      assert OptionalFields(lines) == Ok(optional);
    }
  }

  /** Splitting the written text into trimmed lines gives back the lines written. */
  lemma WrittenLines(p: Publication)
    requires WritableEntry(p)
    ensures Lines(EntryText(p)) == EntryLines(p)
  {
    var raw := EntryLines(p);
    LinesKept(p);
    TrimmedLinesStay(raw);
    LinesOfJoin(raw);
  }

  /** No written line holds a line feed or starts or ends with white space. */
  lemma LinesKept(p: Publication)
    requires IsTrimmed(p.entryType) && '\n' !in p.entryType && '\n' !in p.citationKey
    requires '\n' !in p.url && '\n' !in p.title && '\n' !in p.author && '\n' !in p.year
    requires '\n' !in p.venue && '\n' !in p.pages && '\n' !in p.doi && '\n' !in p.abstractText
    ensures forall k :: 0 <= k < |EntryLines(p)| ==> '\n' !in EntryLines(p)[k] && IsTrimmed(EntryLines(p)[k])
  {
    var raw := EntryLines(p);
    forall k | 0 <= k < |raw| ensures '\n' !in raw[k] && IsTrimmed(raw[k]) {
      if k == 0 { HeaderLineKept(p); }
      else if k == 1 { FieldLineKept("doi", p.doi); }
      else if k == 2 { FieldLineKept("url", p.url); }
      else if k == 3 { FieldLineKept("year", p.year); }
      else if k == 4 { FieldLineKept("pages", p.pages); }
      else if k == 5 { FieldLineKept("title", p.title); }
      else if k == 6 { FieldLineKept("author", p.author); }
      else if k == 7 { FieldLineKept("journal", p.venue); }
      else if k == 8 { FieldLineKept("abstract", p.abstractText); }
    }
  }

  lemma TrimmedLinesStay(raw: seq<string>)
    requires forall k :: 0 <= k < |raw| ==> IsTrimmed(raw[k])
    ensures forall k :: 0 <= k < |raw| ==> Trim(raw[k]) == raw[k]
  {
    forall k | 0 <= k < |raw| ensures Trim(raw[k]) == raw[k] {
      TrimmedStays(raw[k]);
    }
  }

  lemma HeaderLineKept(p: Publication)
    requires IsTrimmed(p.entryType) && '\n' !in p.entryType && '\n' !in p.citationKey
    ensures '\n' !in HeaderLine(p) && IsTrimmed(HeaderLine(p))
  {
    var h := HeaderLine(p);
    assert h[|h| - 1] == ',';
    assert h[0] == if p.entryType == [] then '{' else p.entryType[0];
  }

  lemma FieldLineKept(name: string, v: string)
    requires name != [] && !IsWhitespace(name[0]) && '\n' !in name && '\n' !in v
    ensures '\n' !in FieldLine(name, v) && IsTrimmed(FieldLine(name, v))
  {
    var line := FieldLine(name, v);
    assert line[0] == name[0] && line[|line| - 1] == ',';
  }

  /** The header line gives back the entry type and citation key. */
  lemma HeaderRead(p: Publication)
    requires IsTrimmed(p.entryType) && '{' !in p.entryType
    requires IsTrimmed(p.citationKey) && '{' !in p.citationKey && ',' !in p.citationKey
    ensures Header(HeaderLine(p)) == Ok((p.entryType, p.citationKey))
  {
    HeaderLineShape(p.entryType, p.citationKey);
    HeaderOfLine(p.entryType, p.citationKey);
    TrimmedStays(p.entryType);
    TrimmedStays(p.citationKey);
  }

  lemma HeaderLineShape(t: string, k: string)
    ensures var h := t + "{" + k + ",";
      h[..|t|] == t && h[|t|] == '{' && h[|t| + 1..|t| + 1 + |k|] == k && h[|t| + 1 + |k|] == ','
  {
  }

  lemma HeaderOfLine(t: string, k: string)
    requires '{' !in t && '{' !in k && ',' !in k
    requires var h := t + "{" + k + ",";
      h[..|t|] == t && h[|t|] == '{' && h[|t| + 1..|t| + 1 + |k|] == k && h[|t| + 1 + |k|] == ','
    ensures Header(t + "{" + k + ",") == Ok((Trim(t), Trim(k)))
  {
    HeaderFields(t + "{" + k + ",", |t|, |t| + 1 + |k|);
  }

  lemma TrimmedStays(s: string)
    requires IsTrimmed(s)
    ensures Trim(s) == s
  {
    var e: string := [];
    assert e + s + e == s;
    assert AllWhitespace(e);
    TrimUnique(e, s, e);
  }

  /** An occurrence of a field name in a field line is in the line's own name or in its value. */
  lemma IncludesFieldLine(m: string, v: string, n: string)
    requires ' ' !in n && '=' !in n && '{' !in n && '}' !in n && ',' !in n
    ensures Includes(FieldLine(m, v), n) ==> Includes(m, n) || Includes(v, n)
  {
    if n == [] {
      assert OccursAt(m, n, 0);
    }
    var r1 := "= {" + v + "},";
    var r2 := " {" + v + "},";
    var r3 := "{" + v + "},";
    var r4 := v + "},";
    assert FieldLine(m, v) == m + [' '] + r1;
    IncludesSplit(m, ' ', r1, n);
    assert r1 == [] + ['='] + r2;
    IncludesSplit([], '=', r2, n);
    assert r2 == [] + [' '] + r3;
    IncludesSplit([], ' ', r3, n);
    assert r3 == [] + ['{'] + r4;
    IncludesSplit([], '{', r4, n);
    assert r4 == v + ['}'] + [','];
    IncludesSplit(v, '}', [','], n);
    assert [','] == [] + [','] + [];
    IncludesSplit([], ',', [], n);
  }

  /** An occurrence of a field name in the header line is in the entry type or in the key. */
  lemma IncludesHeaderLine(p: Publication, n: string)
    requires '{' !in n && ',' !in n
    ensures Includes(HeaderLine(p), n) ==> Includes(p.entryType, n) || Includes(p.citationKey, n)
  {
    if n == [] {
      assert OccursAt(p.entryType, n, 0);
    }
    assert HeaderLine(p) == p.entryType + ['{'] + (p.citationKey + ",");
    IncludesSplit(p.entryType, '{', p.citationKey + ",", n);
    assert p.citationKey + "," == p.citationKey + [','] + [];
    IncludesSplit(p.citationKey, ',', [], n);
  }

  /** Lower-case letters only, as the field names are. */
  predicate Lower(n: string) {
    forall i :: 0 <= i < |n| ==> 'a' <= n[i] <= 'z'
  }

  lemma LowerName(n: string)
    requires Lower(n)
    ensures ' ' !in n && '=' !in n && '{' !in n && '}' !in n && ',' !in n
  {
  }

  /** A text no longer than `n` and different from it does not include it. */
  lemma IncludesNotShorter(m: string, n: string)
    requires |m| <= |n| && m != n
    ensures !Includes(m, n)
  {
    if |m| == |n| && m != [] {
      IncludesShort(m[1..], n);
    } else if |m| < |n| {
      IncludesShort(m, n);
    }
  }

  /** A field line with another, no longer name, whose value avoids `n`, neither starts with nor includes `n`. */
  lemma OtherFieldLine(m: string, v: string, n: string)
    requires Lower(n) && |m| <= |n| && m != n && !Includes(v, n)
    ensures !Includes(FieldLine(m, v), n) && !StartsWith(FieldLine(m, v), n)
  {
    LowerName(n);
    IncludesFieldLine(m, v, n);
    IncludesNotShorter(m, n);
    StartsIncludes(FieldLine(m, v), n);
  }

  /** The header line neither starts with nor includes a field name. */
  lemma HeaderLineApart(p: Publication, n: string)
    requires Lower(n) && !Includes(p.entryType, n) && !Includes(p.citationKey, n)
    ensures !Includes(HeaderLine(p), n) && !StartsWith(HeaderLine(p), n)
  {
    LowerName(n);
    IncludesHeaderLine(p, n);
    StartsIncludes(HeaderLine(p), n);
  }

  /** A header line whose type does not start with the lower-case name `n` does not start with it either. */
  lemma HeaderLineNotStarts(p: Publication, n: string)
    requires Lower(n) && !StartsWith(p.entryType, n)
    ensures !StartsWith(HeaderLine(p), n)
  {
    var line, t := HeaderLine(p), p.entryType;
    assert line[..|t|] == t && line[|t|] == '{';
    if |n| <= |line| {
      if |n| <= |t| {
        assert line[..|n|] == t[..|n|];
      } else {
        assert line[..|n|][|t|] == '{';
      }
    }
  }

  /** A field line with another, no longer name neither starts with `n`, whatever its value. */
  lemma FieldLineNotStarts(m: string, v: string, n: string)
    requires Lower(n) && |m| <= |n| && m != n
    ensures !StartsWith(FieldLine(m, v), n)
  {
    var line := FieldLine(m, v);
    assert line[..|m|] == m && line[|m|] == ' ';
    if |n| <= |line| {
      if |m| == |n| {
        assert line[..|n|] == m;
      } else {
        assert line[..|n|][|m|] == ' ';
      }
    }
  }

  /** The names of the field lines before line `k` are no longer than `n` and differ from it. */
  predicate NamesBefore(n: string, k: nat) {
    forall i :: 0 <= i < k - 1 && i < |Order| ==> |Order[i]| <= |n| && Order[i] != n
  }

  /** No line before line `k` starts with `n`. */
  lemma LinesNotStarting(p: Publication, n: string, k: nat)
    requires 1 <= k <= |Order| && Lower(n) && NamesBefore(n, k)
    requires !StartsWith(p.entryType, n)
    ensures forall j :: 0 <= j < k ==> !StartsWith(EntryLines(p)[j], n)
  {
    forall j | 0 <= j < k ensures !StartsWith(EntryLines(p)[j], n) {
      if j == 0 {
        HeaderLineNotStarts(p, n);
      } else {
        EntryLineAt(p, j);
        FieldLineNotStarts(Order[j - 1], Values(p)[j - 1], n);
      }
    }
  }

  /** No line before line `k` includes `n`, when no value written before it does. */
  lemma LinesNotIncluding(p: Publication, n: string, k: nat)
    requires 1 <= k <= |Order| && Lower(n) && NamesBefore(n, k)
    requires !Includes(p.entryType, n) && !Includes(p.citationKey, n)
    requires forall i :: 0 <= i < k - 1 ==> !Includes(Values(p)[i], n)
    ensures forall j :: 0 <= j < k ==> !Includes(EntryLines(p)[j], n)
  {
    forall j | 0 <= j < k ensures !Includes(EntryLines(p)[j], n) {
      if j == 0 {
        HeaderLineApart(p, n);
      } else {
        EntryLineAt(p, j);
        OtherFieldLine(Order[j - 1], Values(p)[j - 1], n);
      }
    }
  }

  /** A required field, found with `startsWith`, is read from its own line `k`. */
  lemma RequiredAt(p: Publication, k: nat)
    requires 1 <= k <= |Order| && Order[k - 1] in StartNames && HeaderAvoids(p)
    requires IsCleanValue(Values(p)[k - 1])
    ensures Required(EntryLines(p), Order[k - 1]) == Ok(Values(p)[k - 1])
  {
    var n := Order[k - 1];
    OrderSorted();
    LinesNotStarting(p, n, k);
    EntryLineAt(p, k);
    LowerName(n);
    ReadRequiredLine(EntryLines(p), n, k, Values(p)[k - 1]);
  }

  /** An optional field, looked up with `includes`, is read from its own line `k`. */
  lemma OptionalAt(p: Publication, k: nat, stripComma: bool)
    requires 1 <= k <= |Order| && (Order[k - 1], k) in IncludedNames
    requires HeaderAvoids(p) && ValuesAvoidLater(p)
    requires IsCleanValue(Values(p)[k - 1])
    ensures var v := Values(p)[k - 1];
      Optional(EntryLines(p), Order[k - 1], stripComma) == Ok(if stripComma then v else v + ",")
  {
    var n := Order[k - 1];
    OrderSorted();
    assert !Includes(p.entryType, n) && !Includes(p.citationKey, n) by {
      assert (n, k) in IncludedNames;
    }
    forall i | 0 <= i < k - 1 ensures !Includes(Values(p)[i], n) {
      assert (n, k) in IncludedNames;
    }
    LinesNotIncluding(p, n, k);
    EntryLineAt(p, k);
    LowerName(n);
    ReadOptionalLine(EntryLines(p), n, stripComma, k, Values(p)[k - 1]);
  }

  lemma RequiredRead(p: Publication)
    requires WritableEntry(p)
    ensures var lines := EntryLines(p);
      Required(lines, "title") == Ok(p.title) && Required(lines, "author") == Ok(p.author)
      && Required(lines, "year") == Ok(p.year) && Venue(lines) == Ok(p.venue)
  {
    OrderAt(p);
    assert "title" in StartNames && "author" in StartNames && "year" in StartNames;
    RequiredAt(p, 5);
    RequiredAt(p, 6);
    RequiredAt(p, 3);
    VenueRead(p);
  }

  /** The venue is read from the `journal` line: no line before it starts with `journal` or includes `booktitle`. */
  lemma VenueRead(p: Publication)
    requires WritableEntry(p)
    ensures Venue(EntryLines(p)) == Ok(p.venue)
  {
    var lines := EntryLines(p);
    assert forall j :: 0 <= j < 7 ==> !StartsWith(lines[j], "journal") by {
      OrderSorted();
      OrderAt(p);
      assert NamesBefore(Order[6], 7);
      assert "journal" in StartNames;
      LinesNotStarting(p, Order[6], 7);
    }
    assert forall j :: 0 <= j < 7 ==> !Includes(lines[j], "booktitle") by {
      OrderSorted();
      assert Lower("booktitle") && NamesBefore("booktitle", 7);
      assert ("booktitle", 7) in IncludedNames;
      forall i | 0 <= i < 6 ensures !Includes(Values(p)[i], "booktitle") {
        assert ("booktitle", 7) in IncludedNames;
      }
      LinesNotIncluding(p, "booktitle", 7);
    }
    EntryLineAt(p, 7);
    ReadVenueLine(lines, 7, p.venue);
  }

  lemma OptionalRead(p: Publication)
    requires WritableEntry(p)
    ensures var lines := EntryLines(p);
      Optional(lines, "pages", true) == Ok(p.pages) && Optional(lines, "doi", true) == Ok(p.doi)
      && Optional(lines, "abstract", false) == Ok(p.abstractText + ",") && Optional(lines, "url", true) == Ok(p.url)
  {
    assert ("doi", 1) in IncludedNames && ("url", 2) in IncludedNames;
    assert ("pages", 4) in IncludedNames && ("abstract", 8) in IncludedNames;
    OrderAt(p);
    OptionalAt(p, 1, true);
    OptionalAt(p, 2, true);
    OptionalAt(p, 4, true);
    OptionalAt(p, 8, false);
  }

  /** A field line read back by `FieldLine`'s round trip once `find` has returned it. */
  lemma ReadLine(lines: seq<string>, tag: string, pat: LinePattern, stripComma: bool, k: nat, name: string, v: string)
    requires FirstMatch(lines, pat, k) && lines[k] == FieldLine(name, v)
    requires '=' !in name && IsCleanValue(v)
    ensures Field(lines, tag, pat, stripComma) == Ok(if stripComma then v else v + ",")
  {
    FindFirstMatch(lines, pat, k);
    FieldLineRoundTrip(name, v);
  }

  /** The line written by `FieldLine(name, v)` starts with `name`. */
  lemma FieldLineStarts(name: string, v: string)
    ensures StartsWith(FieldLine(name, v), name) && Includes(FieldLine(name, v), name)
  {
    assert FieldLine(name, v)[..|name|] == name;
    StartsIncludes(FieldLine(name, v), name);
  }

  /** Lines that do not include a name do not start with it. */
  lemma NotIncludedNotStarted(lines: seq<string>, name: string, k: nat)
    requires k <= |lines| && forall j :: 0 <= j < k ==> !Includes(lines[j], name)
    ensures forall j :: 0 <= j < k ==> !StartsWith(lines[j], name)
  {
    forall j | 0 <= j < k ensures !StartsWith(lines[j], name) {
      StartsIncludes(lines[j], name);
    }
  }

  /** A required field whose line is the first to start with its name. */
  lemma ReadRequiredLine(lines: seq<string>, name: string, k: nat, v: string)
    requires k < |lines| && lines[k] == FieldLine(name, v) && '=' !in name && IsCleanValue(v)
    requires forall j :: 0 <= j < k ==> !StartsWith(lines[j], name)
    ensures Required(lines, name) == Ok(v)
  {
    FieldLineStarts(name, v);
    assert FirstMatch(lines, Prefix(name), k);
    ReadLine(lines, name, Prefix(name), true, k, name, v);
  }

  /** The venue, when its `journal` line comes before any line starting with `journal` or including `booktitle`. */
  lemma ReadVenueLine(lines: seq<string>, k: nat, v: string)
    requires k < |lines| && lines[k] == FieldLine("journal", v) && IsCleanValue(v)
    requires forall j :: 0 <= j < k ==> !StartsWith(lines[j], "journal")
    requires forall j :: 0 <= j < k ==> !Includes(lines[j], "booktitle")
    ensures Venue(lines) == Ok(v)
  {
    FieldLineStarts("journal", v);
    assert FirstMatch(lines, PrefixOrInfix("journal", "booktitle"), k);
    ReadLine(lines, "journal", PrefixOrInfix("journal", "booktitle"), true, k, "journal", v);
  }

  /** An optional field whose line is the first to include its name. */
  lemma ReadOptionalLine(lines: seq<string>, name: string, stripComma: bool, k: nat, v: string)
    requires k < |lines| && lines[k] == FieldLine(name, v) && '=' !in name && IsCleanValue(v)
    requires forall j :: 0 <= j < k ==> !Includes(lines[j], name)
    ensures Optional(lines, name, stripComma) == Ok(if stripComma then v else v + ",")
  {
    FieldLineStarts(name, v);
    NotIncludedNotStarted(lines, name, k);
    assert FirstMatch(lines, Prefix(name), k);
    FindFirstMatch(lines, Prefix(name), k);
    ReadLine(lines, name, Infix(name), stripComma, k, name, v);
  }
}
