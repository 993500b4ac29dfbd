/** The citation list sent back with the answer (app.py, step 6 of `chat()`). */
module Sources {
  import opened Results
  import opened Text

  /** One row of the precomputed corpus. `number` is the rendering of the
      video number (`str(row['number'])`), `None` when the cell holds `None`.
      The embedding vector is not modelled: ranking takes scores as given. */
  datatype Chunk = Chunk(title: string, number: Option<string>, start: real, end: real, text: string)

  /** A ranked corpus row: its position in the corpus, the row, its score. */
  datatype Match = Match(index: nat, chunk: Chunk, score: real)

  /** One entry of the `sources` list of the reply. */
  datatype SourceEntry = SourceEntry(
    title: string,
    number: string,
    start: real,
    end: real,
    snippet: string,
    score: real,
    videoLink: Option<string>)

  /** Longest snippet of chunk text shown with a citation. */
  const SNIPPET_LENGTH: nat := 300

  /** Base URL for deep links into the videos; empty in the shipped configuration. */
  const VIDEO_URL_BASE: string := ""

  /** Python's `int(x)` on a float: truncation toward zero. */
  function Trunc(x: real): (r: int)
    ensures x >= 0.0 ==> r >= 0 && r as real <= x < r as real + 1.0
    ensures x < 0.0 ==> r <= 0 && r as real - 1.0 < x <= r as real
  {
    if x >= 0.0 then x.Floor else -((-x).Floor)
  }

  /** `str(row.get("number", ""))`: the number's rendering, `"None"` for `None`. */
  function NumberText(number: Option<string>): (r: string)
    ensures number.Some? ==> r == number.value
    ensures number.None? ==> r == "None"
  {
    match number
    case Some(s) => s
    case None => "None"
  }

  /** The start time in whole seconds that a `#t=` fragment carries:
      the integer after the link's last `=`. */
  function LinkSeconds(link: string): Option<int> {
    ParseInt(AfterLast(link, '='))
  }

  /** The deep link of a citation: present only when a base URL is configured
      and the row has a number; then `base + number + "#t=" + int(start)`. */
  function VideoLink(base: string, number: Option<string>, start: real): (r: Option<string>)
    ensures r.None? <==> base == [] || number.None?
    ensures r.Some? ==> IsPrefix(base + number.value + "#t=", r.value)
    ensures r.Some? ==> var tail := r.value[|base + number.value + "#t="|..];
      tail == IntToString(Trunc(start)) && ParseInt(tail) == Some(Trunc(start))
    ensures r.Some? ==> LinkSeconds(r.value) == Some(Trunc(start))
  {
    if base != [] && number.Some? then
      var seconds := IntToString(Trunc(start));
      var link := base + number.value + "#t=" + seconds;
      assert link[..|base + number.value + "#t="|] == base + number.value + "#t=";
      assert link[|base + number.value + "#t="|..] == seconds;
      assert '=' !in seconds;
      assert link == (base + number.value + "#t") + ['='] + seconds;
      AfterLastAt(base + number.value + "#t", '=', seconds);
      ParseIntToString(Trunc(start));
      Some(link)
    else
      None
  }

  /** `str(text)[:300]`: a prefix of the text, at most 300 characters long,
      the whole text when it is no longer than that. */
  function Snippet(text: string): (r: string)
    ensures IsPrefix(r, text)
    ensures |r| <= SNIPPET_LENGTH
    ensures |text| <= SNIPPET_LENGTH ==> r == text
    ensures |text| > SNIPPET_LENGTH ==> |r| == SNIPPET_LENGTH
  {
    Prefix(text, SNIPPET_LENGTH)
  }

  /** The citation for one match. */
  function SourceOf(m: Match, base: string): (e: SourceEntry)
    ensures e.title == m.chunk.title && e.start == m.chunk.start && e.end == m.chunk.end
    ensures e.score == m.score
    ensures e.number == NumberText(m.chunk.number)
    ensures m.chunk.number.Some? ==> e.number == m.chunk.number.value
    ensures m.chunk.number.None? ==> e.number == "None"
    ensures IsPrefix(e.snippet, m.chunk.text) && |e.snippet| <= SNIPPET_LENGTH
    ensures |m.chunk.text| <= SNIPPET_LENGTH ==> e.snippet == m.chunk.text
    ensures e.videoLink.None? <==> base == [] || m.chunk.number.None?
    ensures e.videoLink == VideoLink(base, m.chunk.number, m.chunk.start)
  {
    var c := m.chunk;
    SourceEntry(c.title, NumberText(c.number), c.start, c.end, Snippet(c.text), m.score,
                VideoLink(base, c.number, c.start))
  }

  /** The `sources` list: one citation per match, in match order. */
  function SourcesOf(ms: seq<Match>, base: string): (r: seq<SourceEntry>)
    ensures |r| == |ms|
    ensures forall j :: 0 <= j < |ms| ==> r[j] == SourceOf(ms[j], base)
  {
    if ms == [] then []
    else [SourceOf(ms[0], base)] + SourcesOf(ms[1..], base)
  }

  /** With the shipped configuration no citation carries a link. */
  lemma ShippedConfigurationHasNoLinks(ms: seq<Match>)
    ensures forall e :: e in SourcesOf(ms, VIDEO_URL_BASE) ==> e.videoLink.None?
  {
  }
}
