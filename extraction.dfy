/**
 * extraction_engine: every page of a chapter is run through the text
 * pipeline, and the surviving strings are concatenated into the chapter
 * text, each prefixed with a page marker and each non-empty page closed by
 * a separator; apostrophes are then deleted. The chapter's page list is a
 * parameter.
 */
module Extraction {
  import opened Seqs
  import opened TextPipeline

  /** What the strings of one non-empty page contribute: each prefixed with "new page - ". */
  function PageText(page: seq<string>): string
    decreases |page|
  {
    if page == [] then ""
    else PageText(page[..|page| - 1]) + "new page - " + page[|page| - 1]
  }

  /** What one page adds to the chapter text: nothing if it kept no string, else its strings and " | ". */
  function Contribution(page: seq<string>): string
  {
    if page == [] then "" else PageText(page) + " | "
  }

  /** The text built from the pages, in order, before apostrophes are deleted. */
  function Joined(pages: seq<seq<string>>): string
    decreases |pages|
  {
    if pages == [] then ""
    else Joined(pages[..|pages| - 1]) + Contribution(pages[|pages| - 1])
  }

  /** The chapter text extraction_engine returns for the given filtered pages. */
  function Aggregated(pages: seq<seq<string>>): string
  {
    DeleteAll(Joined(pages), "'")
  }

  /** The aggregation loops of extraction_engine, with their `temp` and `final` accumulators. */
  method Aggregate(text: seq<seq<string>>) returns (final: string)
    ensures final == Aggregated(text)
  {
    var temp := "";
    final := "";
    for i := 0 to |text|
      invariant final == Joined(text[..i]) && temp == ""
    {
      var page := text[i];
      PrefixStep(text, i);
      if page != [] {
        for j := 0 to |page|
          invariant temp == PageText(page[..j])
        {
          assert page[..j + 1][..j] == page[..j];
          temp := temp + "new page - ";
          temp := temp + page[j];
        }
        assert page[..|page|] == page;
        final := final + temp;
        final := final + " | ";
        temp := "";
      }
    }
    assert text[..|text|] == text;
    final := DeleteAll(final, "'");
  }

  /** Pages are processed in order: the text of a split page list is the two texts, one after the other. */
  lemma {:induction false} JoinedConcat(a: seq<seq<string>>, b: seq<seq<string>>)
    ensures Joined(a + b) == Joined(a) + Joined(b)
    decreases |b|
  {
    if b == [] {
      AppendEmpty(a);
      AppendEmpty(Joined(a));
    } else {
      var b', c := b[..|b| - 1], Contribution(b[|b| - 1]);
      ConcatInit(a, b);
      JoinedConcat(a, b');
      assert Joined(a + b) == Joined(a + b') + c;
      assert Joined(b) == Joined(b') + c;
      ConcatAssoc(Joined(a), Joined(b'), c);
    }
  }

  lemma JoinedSingle(p: seq<string>)
    ensures Joined([p]) == if p == [] then "" else PageText(p) + " | "
  {
    SingletonInit(p);
  }

  /** Apostrophe deletion is a filter, so the chapter text of a split page list is the two texts concatenated. */
  lemma AggregatedConcat(a: seq<seq<string>>, b: seq<seq<string>>)
    ensures Aggregated(a + b) == Aggregated(a) + Aggregated(b)
  {
    JoinedConcat(a, b);
    DeleteCharIsFilter(Joined(a + b), '\'');
    DeleteCharIsFilter(Joined(a), '\'');
    DeleteCharIsFilter(Joined(b), '\'');
    FilterConcat(Joined(a), Joined(b), Drop({'\''}));
  }

  /** An empty page contributes nothing, wherever it stands. */
  lemma EmptyPageContributesNothing(a: seq<seq<string>>, b: seq<seq<string>>)
    ensures Aggregated(a + [[]] + b) == Aggregated(a + b)
  {
    var empty: seq<seq<string>> := [[]];
    JoinedConcat(a + empty, b);
    JoinedConcat(a, empty);
    JoinedSingle([]);
    JoinedConcat(a, b);
    AppendEmpty(Joined(a));
  }

  /** The total length of a page's strings. */
  function TotalLength(page: seq<string>): nat
    decreases |page|
  {
    if page == [] then 0 else TotalLength(page[..|page| - 1]) + |page[|page| - 1]|
  }

  /** A page's text holds one 11-character marker per string besides the strings. */
  lemma {:induction false} PageTextLength(page: seq<string>)
    ensures |PageText(page)| == 11 * |page| + TotalLength(page)
    decreases |page|
  {
    if page != [] {
      PageTextLength(page[..|page| - 1]);
    }
  }

  /** A non-empty page's text starts with a marker. */
  lemma {:induction false} PageTextStartsWithMarker(page: seq<string>)
    requires page != []
    ensures |PageText(page)| >= 11 && PageText(page)[..11] == "new page - "
    decreases |page|
  {
    var init := page[..|page| - 1];
    var tail := "new page - " + page[|page| - 1];
    assert PageText(page) == PageText(init) + tail;
    if init == [] {
      assert PageText(page)[..11] == tail[..11];
    } else {
      PageTextStartsWithMarker(init);
      assert PageText(page)[..11] == PageText(init)[..11];
    }
  }

  /**
   * A page with strings contributes each one behind its marker, then the
   * separator: one marker per string, the first at the page's start, and
   * " | " at its end.
   */
  lemma NonEmptyPageContributes(a: seq<seq<string>>, p: seq<string>)
    requires p != []
    ensures Joined(a + [p]) == Joined(a) + PageText(p) + " | "
    ensures var c, k := Joined(a + [p]), |Joined(a)|;
            |c| == k + 11 * |p| + TotalLength(p) + 3 &&
            c[k..k + 11] == "new page - " && c[|c| - 3..] == " | "
  {
    ConcatInit(a, [p]);
    SingletonInit(p);
    AppendEmpty(a);
    PageTextLength(p);
    PageTextStartsWithMarker(p);
    MarkedBetween(Joined(a), PageText(p));
  }

  lemma MarkedBetween(before: string, t: string)
    requires |t| >= 11 && t[..11] == "new page - "
    ensures var c := before + t + " | ";
            |c| == |before| + |t| + 3 && c[|before|..|before| + 11] == "new page - " && c[|c| - 3..] == " | "
  {
    var c := before + t + " | ";
    assert c[|before|..|before| + 11] == t[..11];
  }

  /** When no page has a surviving string the chapter text is empty. */
  lemma {:induction false} AllEmptyGivesEmpty(pages: seq<seq<string>>)
    requires forall i :: 0 <= i < |pages| ==> pages[i] == []
    ensures Joined(pages) == "" && Aggregated(pages) == ""
    decreases |pages|
  {
    if pages != [] {
      AllEmptyGivesEmpty(pages[..|pages| - 1]);
    }
  }

  /** The chapter text holds no apostrophe, and every other character of the joined text survives. */
  lemma NoApostrophe(pages: seq<seq<string>>, c: char)
    ensures '\'' !in Aggregated(pages)
    ensures c != '\'' ==> multiset(Aggregated(pages))[c] == multiset(Joined(pages))[c]
  {
    DeleteCharIsFilter(Joined(pages), '\'');
    FilterMember(Joined(pages), Drop({'\''}), '\'');
    FilterCount(Joined(pages), Drop({'\''}), c);
  }

  /** The number of pages with at least one string. */
  function NonEmptyPages(pages: seq<seq<string>>): nat
    decreases |pages|
  {
    if pages == [] then 0
    else NonEmptyPages(pages[..|pages| - 1]) + (if pages[|pages| - 1] == [] then 0 else 1)
  }

  lemma {:induction false} PageTextHasNoBar(page: seq<string>)
    requires forall j :: 0 <= j < |page| ==> '|' !in page[j]
    ensures '|' !in PageText(page)
    decreases |page|
  {
    if page != [] {
      PageTextHasNoBar(page[..|page| - 1]);
      assert '|' !in "new page - ";
    }
  }

  /** A page adds one '|' if it kept a string and none otherwise. */
  lemma BarsOfPage(prefix: string, page: seq<string>)
    requires forall j :: 0 <= j < |page| ==> '|' !in page[j]
    ensures multiset(prefix + Contribution(page))['|'] == multiset(prefix)['|'] + (if page == [] then 0 else 1)
  {
    if page != [] {
      var body := PageText(page);
      PageTextHasNoBar(page);
      var sep := " | ";
      assert sep == [' ', '|', ' '];
      assert multiset(sep)['|'] == 1;
      ConcatAssoc(prefix, body, sep);
    } else {
      AppendEmpty(prefix);
    }
  }

  lemma {:induction false} JoinedBars(pages: seq<seq<string>>)
    requires forall i, j :: 0 <= i < |pages| && 0 <= j < |pages[i]| ==> '|' !in pages[i][j]
    ensures multiset(Joined(pages))['|'] == NonEmptyPages(pages)
    decreases |pages|
  {
    if pages != [] {
      var init, last := pages[..|pages| - 1], pages[|pages| - 1];
      JoinedBars(init);
      BarsOfPage(Joined(init), last);
    }
  }

  /** When no string holds a '|', the chapter text has exactly one '|' per non-empty page. */
  lemma SeparatorsCountPages(pages: seq<seq<string>>)
    requires forall i, j :: 0 <= i < |pages| && 0 <= j < |pages[i]| ==> '|' !in pages[i][j]
    ensures multiset(Aggregated(pages))['|'] == NonEmptyPages(pages)
  {
    JoinedBars(pages);
    NoApostrophe(pages, '|');
  }

  // ---------------------------------------------------------------- the whole engine

  /** char_remover's effect on a whole list. */
  function StripAll(xs: seq<string>): seq<string>
  {
    Map(xs, StripNoise)
  }

  /** The strings one page yields: formatted, stripped, cleaned and filtered. */
  function PageStrings(o: Oracles, page: string): seq<string>
  {
    FilterSensible(o, CleanSpec(StripAll(TextFormatter(o.ocr(page))), Rejecter(o.nonsense)))
  }

  function PageStep(o: Oracles): string -> seq<string>
  {
    page => PageStrings(o, page)
  }

  function AllPageStrings(o: Oracles, pages: seq<string>): seq<seq<string>>
  {
    Map(pages, PageStep(o))
  }

  /** The chapter text extraction_engine returns for the chapter's page list. */
  function Extracted(o: Oracles, pages: seq<string>): string
  {
    Aggregated(AllPageStrings(o, pages))
  }

  /** The pipeline applied to one page: OCR, formatting, in-place stripping, cleaning, filtering. */
  method ProcessPage(page: string, o: Oracles) returns (strings: seq<string>)
    ensures strings == PageStrings(o, page)
  {
    var formatted := TextFormatter(o.ocr(page));
    var lines := new string[|formatted|](k requires 0 <= k < |formatted| => formatted[k]);
    CharRemover(lines);
    Extensional(lines[..], StripAll(formatted));
    var cleaned := CleanText(lines[..], o.nonsense);
    strings := FilterSensible(o, cleaned);
  }

  /** extraction_engine: the pipeline per page, in page order, then the aggregation. */
  method ExtractionEngine(webPages: seq<string>, o: Oracles) returns (final: string)
    ensures final == Extracted(o, webPages)
  {
    var text: seq<seq<string>> := [];
    for i := 0 to |webPages|
      invariant text == Map(webPages[..i], PageStep(o))
    {
      var strings := ProcessPage(webPages[i], o);
      MapPrefix(webPages, PageStep(o), i);
      text := text + [strings];
    }
    MapPrefix(webPages, PageStep(o), |webPages|);
    final := Aggregate(text);
  }

  /**
   * Every string a page yields is a sensible paragraph of the recognised
   * text with its symbols and digits stripped: it has no line break, no
   * listed symbol and no digit.
   */
  lemma PageStringShape(o: Oracles, page: string, s: string, c: char)
    requires s in PageStrings(o, page)
    ensures IsSensible(o, s)
    ensures exists k :: 0 <= k < |TextFormatter(o.ocr(page))| && s == StripNoise(TextFormatter(o.ocr(page))[k])
    ensures '\n' !in s && (IsSymbol(c) || IsDigit(c) ==> c !in s)
  {
    var formatted := TextFormatter(o.ocr(page));
    var stripped := StripAll(formatted);
    var cleaned := CleanSpec(stripped, Rejecter(o.nonsense));
    FilterSensibleExact(o, cleaned, s);
    CleanOnlyRemoves(stripped, Rejecter(o.nonsense));
    SubseqMember(cleaned, stripped, s);
    var k :| 0 <= k < |stripped| && stripped[k] == s;
    StripNoiseExact(formatted[k], c);
    StripNoiseExact(formatted[k], '\n');
  }

  /**
   * The chapter text has no apostrophe and exactly one '|' per page that
   * kept a string: the stripped strings never contain '|'.
   */
  lemma ExtractedShape(o: Oracles, pages: seq<string>)
    ensures '\'' !in Extracted(o, pages)
    ensures multiset(Extracted(o, pages))['|'] == NonEmptyPages(AllPageStrings(o, pages))
  {
    var texts := AllPageStrings(o, pages);
    NoApostrophe(texts, '|');
    forall i, j | 0 <= i < |texts| && 0 <= j < |texts[i]|
      ensures '|' !in texts[i][j]
    {
      assert texts[i][j] in PageStrings(o, pages[i]);
      PageStringShape(o, pages[i], texts[i][j], '|');
    }
    SeparatorsCountPages(texts);
  }
}
