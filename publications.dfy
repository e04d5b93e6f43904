/**
 * What `loadPublications` puts on the page: one list item per entry, built
 * from the entry's fields, appended in order until an entry throws.
 */
module Publications {
  import opened Wrappers
  import opened JsString
  import opened Bibtex
  import opened BibtexFormat

  /** The strings of one list item: link target, heading, author line, summary line and abstract. */
  datatype Item = Item(href: string, heading: string, authors: string, summary: string, abstractText: string)

  const DoiResolver: string := "https://doi.org/"

  /** The link target: the DOI resolver when there is a DOI, the `url` field otherwise (script.js:33). */
  function Link(p: Publication): (href: string)
    ensures p.doi != "" ==> StartsWith(href, DoiResolver) && href[|DoiResolver|..] == p.doi
    ensures p.doi == "" ==> href == p.url
  {
    if p.doi != "" then DoiResolver + p.doi else p.url
  }

  /** The DOI label of the summary, empty when there is no DOI. */
  function DoiLabel(doi: string): (tag: string)
    ensures tag == [] <==> doi == []
    ensures doi != "" ==> StartsWith(tag, "DOI: ") && tag[5..] == doi
  {
    if doi != "" then "DOI: " + doi else ""
  }

  /** `In <venue>, <year>, pp. <pages>. ` followed by the DOI label (script.js:37). */
  function Summary(p: Publication): (s: string)
    ensures p.doi == "" ==> s == SummaryStem(p)
    ensures p.doi != "" ==> s == SummaryStem(p) + "DOI: " + p.doi
  {
    SummaryStem(p) + DoiLabel(p.doi)
  }

  /** The part of the summary that venue, year and pages determine: `In <venue>, <year>, pp. <pages>. `. */
  function SummaryStem(p: Publication): string {
    "In " + p.venue + ", " + p.year + ", pp. " + p.pages + ". "
  }

  /** The summary starts with its stem, and what follows the stem is the DOI label. */
  lemma SummaryParts(p: Publication)
    ensures Summary(p) == SummaryStem(p) + DoiLabel(p.doi)
    ensures StartsWith(Summary(p), SummaryStem(p)) && Summary(p)[|SummaryStem(p)|..] == DoiLabel(p.doi)
  {
    var stem := SummaryStem(p);
    assert Summary(p) == stem + DoiLabel(p.doi);
    assert Summary(p)[..|stem|] == stem;
  }

  /** Two entries with the same venue, year and pages and the same summary have the same DOI. */
  lemma SummaryShowsDoi(p: Publication, q: Publication)
    requires p.venue == q.venue && p.year == q.year && p.pages == q.pages
    requires Summary(p) == Summary(q)
    ensures p.doi == q.doi
  {
    SummaryParts(p);
    SummaryParts(q);
  }

  /** The list item of one entry (script.js:31-41, without the markup). */
  function ToItem(p: Publication): (it: Item)
    ensures it.heading == p.title && it.authors == p.author && it.abstractText == p.abstractText
    ensures p.doi != "" ==> StartsWith(it.href, DoiResolver) && it.href[|DoiResolver|..] == p.doi
    ensures p.doi == "" ==> it.href == p.url
    ensures it.summary == SummaryStem(p) + DoiLabel(p.doi)
  {
    SummaryParts(p);
    Item(Link(p), p.title, p.author, Summary(p), p.abstractText)
  }

  /** The items appended, and the error that ended the loop, if one did. */
  datatype Outcome = Outcome(items: seq<Item>, failure: Option<ParseError>)

  /** One entry read and turned into its list item, or the error it throws. */
  function RenderEntry(entry: string): (r: Result<Item, ParseError>)
    ensures r.Ok? <==> ParseEntry(entry).Ok?
    ensures r.Ok? ==> r.value == ToItem(ParseEntry(entry).value)
    ensures r.Err? ==> r.error == ParseEntry(entry).error
  {
    match ParseEntry(entry)
    case Ok(p) => Ok(ToItem(p))
    case Err(e) => Err(e)
  }

  /**
   * `entries.forEach(...)`, where a throw leaves the loop: `step` turns an
   * entry into its item or throws, and the result holds the items of the
   * entries before the first that throws, and that entry's error.
   */
  function Process(entries: seq<string>, step: string -> Result<Item, ParseError>): (o: Outcome)
    ensures |o.items| <= |entries|
    ensures o.failure.None? <==> |o.items| == |entries|
    ensures o.failure.Some? ==> step(entries[|o.items|]) == Err(o.failure.value)
  {
    if entries == [] then Outcome([], None)
    else match step(entries[0])
      case Err(e) => Outcome([], Some(e))
      case Ok(item) =>
        var rest := Process(entries[1..], step);
        assert rest.failure.Some? ==> entries[|rest.items| + 1] == entries[1..][|rest.items|];
        Outcome([item] + rest.items, rest.failure)
  }

  /** Item `k` is what `step` made of entry `k`. */
  lemma {:induction false} ProcessItem(entries: seq<string>, step: string -> Result<Item, ParseError>, k: nat)
    requires k < |Process(entries, step).items|
    ensures step(entries[k]) == Ok(Process(entries, step).items[k])
  {
    if k > 0 {
      ProcessItem(entries[1..], step, k - 1);
      assert entries[1..][k - 1] == entries[k];
    }
  }

  /** Processing a longer list goes on where the shorter one stopped, unless it stopped on an error. */
  lemma {:induction false} ProcessAppend(a: seq<string>, b: seq<string>, step: string -> Result<Item, ParseError>)
    ensures Process(a + b, step) ==
      if Process(a, step).failure.Some? then Process(a, step)
      else Outcome(Process(a, step).items + Process(b, step).items, Process(b, step).failure)
  {
    if a == [] {
      assert a + b == b;
    } else {
      assert (a + b)[0] == a[0];
      assert (a + b)[1..] == a[1..] + b;
      ProcessAppend(a[1..], b, step);
      match step(a[0])
      case Err(e) =>
      case Ok(item) =>
        assert Process(a + b, step) == Outcome([item] + Process(a[1..] + b, step).items, Process(a[1..] + b, step).failure);
        assert Process(a, step) == Outcome([item] + Process(a[1..], step).items, Process(a[1..], step).failure);
    }
  }

  /** The list items and the error, if any, that `loadPublications` leaves for this bibliography text. */
  function Page(data: string): (o: Outcome)
    ensures |o.items| <= |Segments(data)|
    ensures o.failure.None? <==> |o.items| == |Segments(data)|
  {
    Process(Segments(data), RenderEntry)
  }

  /**
   * Every item on the page belongs to a successfully read entry of the
   * text, at the same position: items keep source order.
   */
  lemma PageItem(data: string, k: nat)
    requires k < |Page(data).items|
    ensures ParseEntry(Segments(data)[k]).Ok?
    ensures Page(data).items[k] == ToItem(ParseEntry(Segments(data)[k]).value)
  {
    ProcessItem(Segments(data), RenderEntry, k);
  }

  /**
   * The page stops exactly at the first entry that fails: when there is
   * one, its error is reported and only the entries before it are shown;
   * otherwise every entry is shown.
   */
  lemma PageFailure(data: string)
    ensures var entries, o := Segments(data), Page(data);
      (o.failure.None? ==> |o.items| == |entries|)
      && (o.failure.Some? ==>
            |o.items| < |entries| && ParseEntry(entries[|o.items|]) == Err(o.failure.value))
  {
    var entries, o := Segments(data), Page(data);
    if o.failure.Some? {
      assert RenderEntry(entries[|o.items|]) == Err(o.failure.value);
    }
  }

  /**
   * A bibliography file of entries written one field per line is shown in
   * full: one item per entry, in file order, and no error.
   */
  lemma BibliographyPage(ps: seq<Publication>)
    requires forall i :: 0 <= i < |ps| ==> WritableEntry(ps[i]) && NoAt(ps[i])
    ensures Page(Bibliography(ps)).failure.None?
    ensures |Page(Bibliography(ps)).items| == |ps|
    ensures forall i :: 0 <= i < |ps| ==> Page(Bibliography(ps)).items[i] == ToItem(AsRead(ps[i]))
  {
    var entries := Segments(Bibliography(ps));
    BibliographySegments(ps);
    forall i | 0 <= i < |ps| ensures RenderEntry(entries[i]) == Ok(ToItem(AsRead(ps[i]))) {
      ReadWritten(ps[i]);
    }
    var o := Page(Bibliography(ps));
    forall i | 0 <= i < |ps| ensures o.items[i] == ToItem(AsRead(ps[i])) {
      ProcessItem(entries, RenderEntry, i);
    }
  }

  /**
   * The `forEach` loop of `loadPublications`: apply `step` to each entry in
   * turn, collecting the items, and leave the loop at the first error.
   */
  method ProcessEntries(entries: seq<string>, step: string -> Result<Item, ParseError>)
    returns (items: seq<Item>, failure: Option<ParseError>)
    ensures Outcome(items, failure) == Process(entries, step)
  {
    items, failure := [], None;
    var k := 0;
    while k < |entries|
      invariant 0 <= k <= |entries|
      invariant Process(entries[..k], step) == Outcome(items, None)
    {
      var entry := entries[k];
      var r := step(entry);
      assert entries[..k + 1] == entries[..k] + [entry];
      ProcessAppend(entries[..k], [entry], step);
      match r
      case Err(e) =>
        failure := Some(e);
        assert entries == entries[..k] + entries[k..];
        ProcessAppend(entries[..k], entries[k..], step);
        assert entries[k..][0] == entry;
        return;
      case Ok(item) =>
        items := items + [item];
        k := k + 1;
    }
    assert entries[..k] == entries;
  }

  /**
   * The `.then` callback of `loadPublications` on the fetched text: segment
   * it, then read and render each entry in turn, stopping at the first one
   * that throws.
   */
  method LoadPublications(data: string) returns (items: seq<Item>, failure: Option<ParseError>)
    ensures Outcome(items, failure) == Page(data)
  {
    items, failure := ProcessEntries(Segments(data), RenderEntry);
  }
}
