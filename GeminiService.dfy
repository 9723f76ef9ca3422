/** services/geminiService.ts: turning the hosted model's completions into
    places and itineraries. The model is not part of this module: each call
    is an oracle from the data its prompt is built from to an abstract
    response, and `JSON.parse` is an oracle from text to an optional
    itinerary. */
module GeminiService {
  import opened Wrappers
  import opened Sequences
  import opened Strings
  import opened Types

  // ================================================================
  // The entry header /###\s*Place\s*\d+:/i
  // ================================================================

  /** Where a greedy `\s*` started at index `k` of `s` stops. */
  function WhiteEnd(s: string, k: nat): (e: nat)
    requires k <= |s|
    ensures k <= e <= |s| && (e < |s| ==> !IsWhite(s[e]))
    ensures forall i :: k <= i < e ==> IsWhite(s[i])
    decreases |s| - k
  {
    if k < |s| && IsWhite(s[k]) then WhiteEnd(s, k + 1) else k
  }

  /** Where a greedy `\d+` started at index `k` of `s` stops. */
  function DigitEnd(s: string, k: nat): (e: nat)
    requires k <= |s|
    ensures k <= e <= |s| && (e < |s| ==> !IsDigit(s[e]))
    ensures forall i :: k <= i < e ==> IsDigit(s[i])
    decreases |s| - k
  {
    if k < |s| && IsDigit(s[k]) then DigitEnd(s, k + 1) else k
  }

  /** Case folding under the `i` flag, for the letters of "Place": only the
      ASCII letters fold onto them. */
  function FoldCase(c: char): char {
    if 'A' <= c <= 'Z' then (c as int + 32) as char else c
  }

  /** "Place", in any mix of cases, at index `k`. */
  predicate PlaceWordAt(s: string, k: nat) {
    k + 5 <= |s| && FoldCase(s[k]) == 'p' && FoldCase(s[k + 1]) == 'l'
    && FoldCase(s[k + 2]) == 'a' && FoldCase(s[k + 3]) == 'c' && FoldCase(s[k + 4]) == 'e'
  }

  /** The end of the header match starting at index `q`, if there is one.
      The greedy runs never need to give characters back: after a shorter
      `\s*` run comes white space where "P" or a digit is needed, and after
      a shorter `\d+` run comes a digit where ":" is needed. */
  function HeaderEnd(s: string, q: nat): (r: Option<nat>)
    requires q <= |s|
    ensures r.Some? ==> q < r.value <= |s|
  {
    if q + 3 <= |s| && s[q] == '#' && s[q + 1] == '#' && s[q + 2] == '#' then
      var a := WhiteEnd(s, q + 3);
      if PlaceWordAt(s, a) then
        var b := WhiteEnd(s, a + 5);
        var d := DigitEnd(s, b);
        if b < d < |s| && s[d] == ':' then Some(d + 1) else None
      else None
    else None
  }

  /** The header pattern matches `s[q..d + 1]` with "###" at `q`, white
      space up to `a`, "Place" in any case at `a`, white space from `a + 5`
      up to `b`, digits from `b` up to `d`, and ":" at `d`. */
  predicate HeaderShape(s: string, q: nat, a: nat, b: nat, d: nat) {
    && q + 3 <= a && a + 5 <= b < d < |s|
    && s[q] == '#' && s[q + 1] == '#' && s[q + 2] == '#'
    && (forall i :: q + 3 <= i < a ==> IsWhite(s[i]))
    && PlaceWordAt(s, a)
    && (forall i :: a + 5 <= i < b ==> IsWhite(s[i]))
    && (forall i :: b <= i < d ==> IsDigit(s[i]))
    && s[d] == ':'
  }

  /** `HeaderEnd` finds exactly the matches of the header pattern: a match it
      reports has the pattern's shape, and every way of reading the pattern
      at `q` ends where it says, so no match is missed and none is ambiguous. */
  lemma HeaderEndIsMatch(s: string, q: nat)
    requires q <= |s|
    ensures HeaderEnd(s, q).Some? ==>
      exists a: nat, b: nat, d: nat :: HeaderShape(s, q, a, b, d) && HeaderEnd(s, q).value == d + 1
    ensures forall a: nat, b: nat, d: nat :: HeaderShape(s, q, a, b, d) ==> HeaderEnd(s, q) == Some(d + 1)
  {
    if HeaderEnd(s, q).Some? {
      var a, b, d := HeaderEndHasShape(s, q);
    }
    forall a: nat, b: nat, d: nat | HeaderShape(s, q, a, b, d)
      ensures HeaderEnd(s, q) == Some(d + 1)
    {
      HeaderRunsAreGreedy(s, q, a, b, d);
    }
  }

  /** The runs `HeaderEnd` reads give a header of the pattern's shape. */
  lemma HeaderEndHasShape(s: string, q: nat) returns (a: nat, b: nat, d: nat)
    requires q <= |s| && HeaderEnd(s, q).Some?
    ensures HeaderShape(s, q, a, b, d) && HeaderEnd(s, q) == Some(d + 1)
  {
    a := WhiteEnd(s, q + 3);
    b := WhiteEnd(s, a + 5);
    d := DigitEnd(s, b);
  }

  /** In a header, each greedy run stops exactly where the pattern needs it
      to: "P" or "p" ends the first white run, a digit the second, ":" the
      digits. */
  lemma HeaderRunsAreGreedy(s: string, q: nat, a: nat, b: nat, d: nat)
    requires HeaderShape(s, q, a, b, d)
    ensures WhiteEnd(s, q + 3) == a && WhiteEnd(s, a + 5) == b && DigitEnd(s, b) == d
    ensures HeaderEnd(s, q) == Some(d + 1)
  {
    assert s[a] == 'p' || s[a] == 'P';
    assert IsDigit(s[b]);
  }

  /** A header match starts at index `q` of `s`. */
  predicate HeaderAt(s: string, q: int) {
    0 <= q < |s| && HeaderEnd(s, q).Some?
  }

  /** The scan of `split` with a regular expression, from index `q` of the
      current piece `s`: at the first header the text before it is a piece,
      and the scan resumes right after the header. */
  function SplitFrom(s: string, q: nat): seq<string>
    requires q <= |s|
    decreases |s|, |s| - q
  {
    if q == |s| then [s]
    else
      match HeaderEnd(s, q)
      case Some(e) => [s[..q]] + SplitFrom(s[e..], 0)
      case None => SplitFrom(s, q + 1)
  }

  /** `text.split(/###\s*Place\s*\d+:/i)`. */
  function SplitOnHeaders(text: string): seq<string> {
    SplitFrom(text, 0)
  }

  /** The `filter(e => e.trim().length > 0)` test. */
  predicate IsEntry(e: string) {
    !IsBlank(e)
  }

  /** The entries the parser turns into places: the non-blank pieces, in order. */
  function Entries(text: string): seq<string> {
    Filter(SplitOnHeaders(text), IsEntry)
  }

  lemma {:induction false} SplitSkipsNonHeaders(s: string, k: nat, q: nat)
    requires k <= q <= |s|
    requires forall j :: k <= j < q ==> !HeaderAt(s, j)
    ensures SplitFrom(s, k) == SplitFrom(s, q)
    decreases q - k
  {
    if k < q {
      assert !HeaderAt(s, k);
      SplitSkipsNonHeaders(s, k + 1, q);
    }
  }

  /** Text holding no header is a single piece. */
  lemma NoHeaderOnePiece(s: string)
    requires forall q :: 0 <= q < |s| ==> !HeaderAt(s, q)
    ensures SplitOnHeaders(s) == [s]
  {
    SplitSkipsNonHeaders(s, 0, |s|);
  }

  /** The text before the first header is the first piece, and the other
      pieces are those of the text after that header. */
  lemma FirstHeaderSplits(s: string, q: nat)
    requires HeaderAt(s, q)
    requires forall j :: 0 <= j < q ==> !HeaderAt(s, j)
    ensures SplitOnHeaders(s) == [s[..q]] + SplitOnHeaders(s[HeaderEnd(s, q).value..])
  {
    SplitSkipsNonHeaders(s, 0, q);
  }

  /** Text without a header is one entry, unless it is blank. */
  lemma EntriesWithoutHeader(s: string)
    requires forall q :: 0 <= q < |s| ==> !HeaderAt(s, q)
    ensures Entries(s) == if IsBlank(s) then [] else [s]
  {
    NoHeaderOnePiece(s);
    assert [s][1..] == [];
  }

  /** Non-blank text before the first header is an entry of its own, ahead
      of the entries after the header. */
  lemma EntriesAtFirstHeader(s: string, q: nat)
    requires HeaderAt(s, q)
    requires forall j :: 0 <= j < q ==> !HeaderAt(s, j)
    ensures var rest := s[HeaderEnd(s, q).value..];
      Entries(s) == (if IsBlank(s[..q]) then [] else [s[..q]]) + Entries(rest)
  {
    var rest := s[HeaderEnd(s, q).value..];
    FirstHeaderSplits(s, q);
    FilterAppend([s[..q]], SplitOnHeaders(rest), IsEntry);
    assert [s[..q]][1..] == [];
  }

  // ================================================================
  // Labelled fields: entry.match(/\*\*Label\*\*:\s*(.+)/)
  // ================================================================

  const NameLabel: string := "**Name**:"
  const DescriptionLabel: string := "**Description**:"
  const CategoryLabel: string := "**Category**:"
  const ReasonLabel: string := "**Hidden Gem Factor**:"
  const TagsLabel: string := "**Tags**:"

  /** The end of the line `j` is on: the first line terminator at or after
      `j`, or the end of `s`. */
  function LineEnd(s: string, j: nat): (e: nat)
    requires j <= |s|
    ensures j <= e <= |s| && (e < |s| ==> IsLineTerminator(s[e]))
    ensures forall i :: j <= i < e ==> !IsLineTerminator(s[i])
    decreases |s| - j
  {
    if j < |s| && !IsLineTerminator(s[j]) then LineEnd(s, j + 1) else j
  }

  /** Where `(.+)` can start once `\s*` has consumed `s[k..j]` and gives
      characters back one at a time: the last index at most `j` that holds a
      character other than a line terminator. */
  function CaptureStart(s: string, k: nat, j: nat): (r: Option<nat>)
    requires k <= j <= |s|
    ensures r.None? <==> forall i :: k <= i <= j ==> i == |s| || IsLineTerminator(s[i])
    ensures r.Some? ==> k <= r.value <= j && r.value < |s| && !IsLineTerminator(s[r.value])
    ensures r.Some? ==> forall i :: r.value < i <= j ==> i == |s| || IsLineTerminator(s[i])
    decreases j
  {
    if j < |s| && !IsLineTerminator(s[j]) then Some(j)
    else if j == k then None
    else CaptureStart(s, k, j - 1)
  }

  /** The group `(.+)` of `\s*(.+)` matched at index `k`: the rest of a line,
      non-empty and free of line terminators. */
  function CaptureAt(s: string, k: nat): (r: Option<string>)
    requires k <= |s|
    ensures r.Some? ==> |r.value| > 0
    ensures r.Some? ==> forall i :: 0 <= i < |r.value| ==> !IsLineTerminator(r.value[i])
  {
    match CaptureStart(s, k, WhiteEnd(s, k))
    case Some(i) => Some(s[i..LineEnd(s, i)])
    case None => None
  }

  /** The field pattern for `marker` matches at index `p`. */
  predicate MatchesAt(s: string, marker: string, p: int) {
    OccursAt(s, marker, p) && CaptureAt(s, p + |marker|).Some?
  }

  /** The field pattern's test at each candidate start. */
  function MatchTest(s: string, marker: string): nat -> bool {
    (q: nat) => MatchesAt(s, marker, q)
  }

  /** Where `match` without the `g` flag finds the field pattern: the first
      index at which it matches. */
  function FirstMatch(s: string, marker: string): (r: Option<nat>)
    ensures r.Some? ==> MatchesAt(s, marker, r.value)
  {
    FirstFrom(0, |s| + 1, MatchTest(s, marker))
  }

  /** `entry.match(/\*\*Label\*\*:\s*(.+)/)?.[1]`. */
  function FieldCapture(entry: string, marker: string): Option<string> {
    match FirstMatch(entry, marker)
    case Some(p) => CaptureAt(entry, p + |marker|)
    case None => None
  }

  /** `match ? match[1].trim() : default`. */
  function FieldOr(entry: string, marker: string, default: string): string {
    match FieldCapture(entry, marker)
    case Some(c) => Trim(c)
    case None => default
  }

  /** A marker that does not occur gives no match. */
  lemma FieldAbsent(entry: string, marker: string)
    requires !Contains(entry, marker)
    ensures FieldCapture(entry, marker) == None
  {
    assert forall q :: !OccursAt(entry, marker, q);
    FirstFromIsFirst(0, |entry| + 1, MatchTest(entry, marker));
  }

  /** At the first occurrence of the marker, with text after the white space
      that follows it, the field is that text up to the end of its line,
      trimmed; the white space skipped may span line breaks. */
  lemma FieldAtFirstOccurrence(entry: string, marker: string, p: nat, default: string)
    requires OccursAt(entry, marker, p)
    requires forall q :: 0 <= q < p ==> !OccursAt(entry, marker, q)
    requires WhiteEnd(entry, p + |marker|) < |entry|
    ensures var m := WhiteEnd(entry, p + |marker|);
      FieldCapture(entry, marker) == Some(entry[m..LineEnd(entry, m)])
      && FieldOr(entry, marker, default) == Trim(entry[m..LineEnd(entry, m)])
  {
    CaptureAfterWhite(entry, p + |marker|);
    FirstMatchAt(entry, marker, p);
    FieldAtMatch(entry, marker, p, default);
  }

  /** The field is the trimmed group captured at the first match. */
  lemma FieldAtMatch(entry: string, marker: string, p: nat, default: string)
    requires FirstMatch(entry, marker) == Some(p)
    requires p + |marker| <= |entry| && CaptureAt(entry, p + |marker|).Some?
    ensures FieldCapture(entry, marker) == CaptureAt(entry, p + |marker|)
    ensures FieldOr(entry, marker, default) == Trim(CaptureAt(entry, p + |marker|).value)
  {
    var cap := CaptureAt(entry, p + |marker|);
    assert FieldCapture(entry, marker) == cap;
  }

  /** At the first occurrence of the marker, with only white space after it
      to the end of the entry of which one is not a line terminator, `\s*`
      gives characters back and `(.+)` captures white space: the field is
      empty, not its default. */
  lemma FieldBlankCapture(entry: string, marker: string, p: nat, default: string, i: nat)
    requires OccursAt(entry, marker, p)
    requires forall q :: 0 <= q < p ==> !OccursAt(entry, marker, q)
    requires WhiteEnd(entry, p + |marker|) == |entry|
    requires p + |marker| <= i < |entry| && !IsLineTerminator(entry[i])
    ensures FieldOr(entry, marker, default) == ""
  {
    var k := p + |marker|;
    WhiteTailCapture(entry, k, i);
    FirstMatchAt(entry, marker, p);
    BlankGroupField(entry, marker, p, default);
  }

  /** A white group at the first match trims to the empty field. */
  lemma BlankGroupField(entry: string, marker: string, p: nat, default: string)
    requires FirstMatch(entry, marker) == Some(p)
    requires p + |marker| <= |entry|
    requires CaptureAt(entry, p + |marker|).Some? && AllWhite(CaptureAt(entry, p + |marker|).value)
    ensures FieldOr(entry, marker, default) == ""
  {
    var cap := CaptureAt(entry, p + |marker|).value;
    assert FieldCapture(entry, marker) == Some(cap);
    assert Trim(cap) == "";
  }

  /** When only white space follows index `k` and one of those characters is
      not a line terminator, the group `(.+)` exists and is all white. */
  lemma WhiteTailCapture(s: string, k: nat, i: nat)
    requires k <= i < |s| && WhiteEnd(s, k) == |s| && !IsLineTerminator(s[i])
    ensures CaptureAt(s, k).Some? && AllWhite(CaptureAt(s, k).value)
  {
    var c := CaptureStart(s, k, |s|);
    assert c.Some?;
    var cap := s[c.value..LineEnd(s, c.value)];
    forall j | 0 <= j < |cap|
      ensures IsWhite(cap[j])
    {
      assert cap[j] == s[c.value + j];
    }
  }

  /** When the marker ends in a character that is not white and only line
      breaks follow its first occurrence to the end of the entry, the
      pattern matches nowhere and the field gets its default. */
  lemma FieldOnlyBreaks(entry: string, marker: string, p: nat, default: string)
    requires OccursAt(entry, marker, p)
    requires forall q :: 0 <= q < p ==> !OccursAt(entry, marker, q)
    requires |marker| > 0 && !IsWhite(marker[|marker| - 1])
    requires forall i :: p + |marker| <= i < |entry| ==> IsLineTerminator(entry[i])
    ensures FieldCapture(entry, marker) == None
    ensures FieldOr(entry, marker, default) == default
  {
    var ok := MatchTest(entry, marker);
    forall q: nat | q < |entry| + 1
      ensures !ok(q)
    {
      if q == p {
        var k := p + |marker|;
        assert CaptureStart(entry, k, WhiteEnd(entry, k)).None?;
      }
    }
    FirstFromIsFirst(0, |entry| + 1, ok);
  }

  /** The entry "**Name**: \n" on its own gets the empty name, not the
      default: an instance of `FieldBlankCapture`. */
  lemma BlankNameAtEntryEnd()
    ensures PlaceName("**Name**: \n", 0) == ""
  {
    var e := "**Name**: \n";
    assert e[0..|NameLabel|] == NameLabel;
    assert WhiteEnd(e, 9) == 11;
    FieldBlankCapture(e, NameLabel, 0, DefaultName(0), 9);
  }

  /** The entry "**Name**:\n" on its own gets the default name: an
      instance of `FieldOnlyBreaks`. */
  lemma MissingNameAtEntryEnd()
    ensures PlaceName("**Name**:\n", 0) == "Hidden Spot 1"
  {
    var e := "**Name**:\n";
    assert e[0..|NameLabel|] == NameLabel;
    FieldOnlyBreaks(e, NameLabel, 0, DefaultName(0));
    assert NatToString(1) == "1";
  }

  /** Once `\s*` reaches a character that is not white, `(.+)` takes the rest
      of that line. */
  lemma CaptureAfterWhite(s: string, k: nat)
    requires k <= |s| && WhiteEnd(s, k) < |s|
    ensures var m := WhiteEnd(s, k); CaptureAt(s, k) == Some(s[m..LineEnd(s, m)])
  {
    var m := WhiteEnd(s, k);
    assert CaptureStart(s, k, m) == Some(m);
  }

  /** A match at the first occurrence of the marker is the first match. */
  lemma FirstMatchAt(s: string, marker: string, p: nat)
    requires MatchesAt(s, marker, p)
    requires forall q :: 0 <= q < p ==> !OccursAt(s, marker, q)
    ensures FirstMatch(s, marker) == Some(p)
  {
    var ok := MatchTest(s, marker);
    assert ok(p);
    forall q: nat | q < p
      ensures !ok(q)
    {
      assert !OccursAt(s, marker, q);
    }
    FirstFromAt(0, |s| + 1, ok, p);
  }

  // ================================================================
  // Building places
  // ================================================================

  const DefaultDescription: string := "Discover this unique local experience."
  const DefaultCategory: string := "Experience"
  const DefaultReason: string := "Highly recommended by locals."
  const DefaultTags: seq<string> := ["Local", "Authentic"]

  function DefaultName(index: nat): string {
    "Hidden Spot " + NatToString(index + 1)
  }

  function PlaceName(entry: string, index: nat): string {
    FieldOr(entry, NameLabel, DefaultName(index))
  }

  /** `tagsMatch ? tagsMatch[1].split(',').map(t => t.trim()) : ['Local', 'Authentic']`. */
  function PlaceTags(entry: string): seq<string> {
    match FieldCapture(entry, TagsLabel)
    case Some(c) => TrimEach(Split(c, ','))
    case None => DefaultTags
  }

  /** First test of the map lookup: a maps citation with a title whose lower
      case occurs in the lower-cased name. */
  predicate TitleInName(c: GroundingChunk, name: string, lower: string -> string) {
    c.maps.Some? && c.maps.value.title != "" && Contains(lower(name), lower(c.maps.value.title))
  }

  /** Second test: a maps citation with a title whose lower case contains the
      lower-cased name. */
  predicate NameInTitle(c: GroundingChunk, name: string, lower: string -> string) {
    c.maps.Some? && c.maps.value.title != "" && Contains(lower(c.maps.value.title), lower(name))
  }

  /** `chunks.find(TitleInName) || chunks.find(NameInTitle)`, as an index:
      the first chunk passing the first test if any does, otherwise the
      first passing the second, otherwise none. */
  function MapChunkIndex(name: string, chunks: seq<GroundingChunk>, lower: string -> string): (r: Option<nat>)
    ensures r.Some? ==> r.value < |chunks| && chunks[r.value].maps.Some?
    ensures r.None? <==> forall i :: 0 <= i < |chunks| ==>
      !TitleInName(chunks[i], name, lower) && !NameInTitle(chunks[i], name, lower)
    ensures r.Some? ==>
      (TitleInName(chunks[r.value], name, lower)
       && forall j :: 0 <= j < r.value ==> !TitleInName(chunks[j], name, lower))
      || ((forall j :: 0 <= j < |chunks| ==> !TitleInName(chunks[j], name, lower))
          && NameInTitle(chunks[r.value], name, lower)
          && forall j :: 0 <= j < r.value ==> !NameInTitle(chunks[j], name, lower))
  {
    match FindIndex(chunks, (c: GroundingChunk) => TitleInName(c, name, lower))
    case Some(i) => Some(i)
    case None => FindIndex(chunks, (c: GroundingChunk) => NameInTitle(c, name, lower))
  }

  /** `place-${index}-${Date.now()}`. */
  function PlaceId(index: nat, now: nat): string {
    "place-" + NatToString(index) + "-" + NatToString(now)
  }

  /** `https://picsum.photos/800/600?random=${index + 10}`. */
  function ImageUrl(index: nat): string {
    "https://picsum.photos/800/600?random=" + NatToString(index + 10)
  }

  /** The record pushed for entry number `index`, with `now` the clock
      reading taken for it. */
  function BuildPlace(entry: string, index: nat, chunks: seq<GroundingChunk>,
                      lower: string -> string, now: nat): Place
  {
    var name := PlaceName(entry, index);
    var mapChunk := MapChunkIndex(name, chunks, lower);
    Place(
      id := PlaceId(index, now),
      name := name,
      description := FieldOr(entry, DescriptionLabel, DefaultDescription),
      category := FieldOr(entry, CategoryLabel, DefaultCategory),
      reason := FieldOr(entry, ReasonLabel, DefaultReason),
      location := if mapChunk.Some? then Some(chunks[mapChunk.value].maps.value.title) else None,
      mapLink := if mapChunk.Some? then Some(chunks[mapChunk.value].maps.value.uri) else None,
      rating := None,
      imageUrl := Some(ImageUrl(index)),
      tags := PlaceTags(entry))
  }

  /** `places` is what the parser builds from `text`: one place per entry, in
      entry order, the entry's position as its index. */
  predicate IsParseOf(places: seq<Place>, text: string, chunks: seq<GroundingChunk>,
                      lower: string -> string, clock: nat -> nat)
  {
    var entries := Entries(text);
    |places| == |entries|
    && forall i :: 0 <= i < |places| ==> places[i] == BuildPlace(entries[i], i, chunks, lower, clock(i))
  }

  /** In `a + [c] + x` with no `c` in `a`, the first `c` is at index `|a|`. */
  lemma FirstSeparator(a: string, x: string, c: char)
    requires c !in a
    ensures (a + [c] + x)[|a|] == c
    ensures forall i :: 0 <= i < |a| ==> (a + [c] + x)[i] != c
  {
    assert forall i :: 0 <= i < |a| ==> (a + [c] + x)[i] == a[i];
  }

  /** If two strings agree up to a separator that neither prefix holds, the
      prefixes are equal. */
  lemma SamePrefixBefore(a: string, x: string, b: string, y: string, c: char)
    requires c !in a && c !in b && a + [c] + x == b + [c] + y
    ensures a == b
  {
    FirstSeparator(a, x, c);
    FirstSeparator(b, y, c);
    assert a == (a + [c] + x)[..|a|] && b == (b + [c] + y)[..|b|];
  }

  /** Ids made for different positions differ, whatever the clock readings:
      the first "-" after "place-" ends the position's digits. */
  lemma PlaceIdsDistinct(i: nat, j: nat, t: nat, u: nat)
    requires i != j
    ensures PlaceId(i, t) != PlaceId(j, u)
  {
    if PlaceId(i, t) == PlaceId(j, u) {
      var a, b := NatToString(i), NatToString(j);
      assert PlaceId(i, t) == "place-" + (a + ['-'] + NatToString(t));
      assert PlaceId(j, u) == "place-" + (b + ['-'] + NatToString(u));
      assert a + ['-'] + NatToString(t) == PlaceId(i, t)[6..];
      assert b + ['-'] + NatToString(u) == PlaceId(j, u)[6..];
      assert '-' !in a && '-' !in b;
      SamePrefixBefore(a, NatToString(t), b, NatToString(u), '-');
      NatToStringInjective(i, j);
    }
  }

  /** A field whose marker does not occur in the entry gets its default. */
  lemma MissingFieldsDefault(entry: string, index: nat, chunks: seq<GroundingChunk>,
                             lower: string -> string, now: nat)
    ensures var p := BuildPlace(entry, index, chunks, lower, now);
      && (!Contains(entry, NameLabel) ==> p.name == "Hidden Spot " + NatToString(index + 1))
      && (!Contains(entry, DescriptionLabel) ==> p.description == "Discover this unique local experience.")
      && (!Contains(entry, CategoryLabel) ==> p.category == "Experience")
      && (!Contains(entry, ReasonLabel) ==> p.reason == "Highly recommended by locals.")
      && (!Contains(entry, TagsLabel) ==> p.tags == ["Local", "Authentic"])
  {
    if !Contains(entry, NameLabel) { FieldAbsent(entry, NameLabel); }
    if !Contains(entry, DescriptionLabel) { FieldAbsent(entry, DescriptionLabel); }
    if !Contains(entry, CategoryLabel) { FieldAbsent(entry, CategoryLabel); }
    if !Contains(entry, ReasonLabel) { FieldAbsent(entry, ReasonLabel); }
    if !Contains(entry, TagsLabel) { FieldAbsent(entry, TagsLabel); }
  }

  /** Present tags are the comma-separated pieces of the captured text, each
      trimmed, in order: one more than there are commas, empty pieces kept,
      and the pieces join back into the captured text. */
  lemma TagsFromCapture(entry: string)
    requires FieldCapture(entry, TagsLabel).Some?
    ensures var c := FieldCapture(entry, TagsLabel).value;
      var tags := PlaceTags(entry);
      && |tags| == Count(c, ',') + 1
      && (forall i :: 0 <= i < |tags| ==> tags[i] == Trim(Split(c, ',')[i]))
      && Join(Split(c, ','), ",") == c
  {
    JoinSplit(FieldCapture(entry, TagsLabel).value, ',');
  }

  /** The map citation of a place: the first chunk passing the first test, or
      failing that the first passing the second; no link and no location when
      no chunk passes either. */
  lemma MapCitation(entry: string, index: nat, chunks: seq<GroundingChunk>,
                    lower: string -> string, now: nat, k: nat)
    ensures var p := BuildPlace(entry, index, chunks, lower, now);
      var name := p.name;
      && ((p.mapLink.None? && p.location.None?) <==>
          forall i :: 0 <= i < |chunks| ==> !TitleInName(chunks[i], name, lower) && !NameInTitle(chunks[i], name, lower))
      && (k < |chunks| && TitleInName(chunks[k], name, lower)
          && (forall j :: 0 <= j < k ==> !TitleInName(chunks[j], name, lower))
          ==> p.mapLink == Some(chunks[k].maps.value.uri) && p.location == Some(chunks[k].maps.value.title))
      && (k < |chunks| && (forall j :: 0 <= j < |chunks| ==> !TitleInName(chunks[j], name, lower))
          && NameInTitle(chunks[k], name, lower)
          && (forall j :: 0 <= j < k ==> !NameInTitle(chunks[j], name, lower))
          ==> p.mapLink == Some(chunks[k].maps.value.uri) && p.location == Some(chunks[k].maps.value.title))
  {
    var name := PlaceName(entry, index);
    var r := MapChunkIndex(name, chunks, lower);
    if r.Some? && k < |chunks| {
      if TitleInName(chunks[k], name, lower) && (forall j :: 0 <= j < k ==> !TitleInName(chunks[j], name, lower)) {
        assert r.value == k;
      }
      if (forall j :: 0 <= j < |chunks| ==> !TitleInName(chunks[j], name, lower))
         && NameInTitle(chunks[k], name, lower) && (forall j :: 0 <= j < k ==> !NameInTitle(chunks[j], name, lower)) {
        assert r.value == k;
      }
    }
  }

  /** The places of one parse have pairwise different ids and numbered images. */
  lemma ParsedIdsDistinct(places: seq<Place>, text: string, chunks: seq<GroundingChunk>,
                          lower: string -> string, clock: nat -> nat)
    requires IsParseOf(places, text, chunks, lower, clock)
    ensures forall i, j :: 0 <= i < j < |places| ==> places[i].id != places[j].id
    ensures forall i :: 0 <= i < |places| ==> places[i].imageUrl == Some(ImageUrl(i))
  {
    forall i, j | 0 <= i < j < |places|
      ensures places[i].id != places[j].id
    {
      PlaceIdsDistinct(i, j, clock(i), clock(j));
    }
  }

  /** The `forEach` over the entries of `parsePlacesFromText`: one place
      pushed per entry, in entry order. `clock(i)` is the `Date.now()`
      reading taken while entry `i` is built. */
  method PlacesFromEntries(entries: seq<string>, chunks: seq<GroundingChunk>,
                           lower: string -> string, clock: nat -> nat)
    returns (places: seq<Place>)
    ensures |places| == |entries|
    ensures forall i :: 0 <= i < |places| ==> places[i] == BuildPlace(entries[i], i, chunks, lower, clock(i))
  {
    places := [];
    var index := 0;
    while index < |entries|
      invariant index <= |entries| && |places| == index
      invariant forall i :: 0 <= i < index ==> places[i] == BuildPlace(entries[i], i, chunks, lower, clock(i))
    {
      var place := BuildPlace(entries[index], index, chunks, lower, clock(index));
      PushKeepsPrefix(places, place);
      places := places + [place];
      index := index + 1;
    }
  }

  /** Pushing onto a list keeps what it held and puts the new element last. */
  lemma PushKeepsPrefix<T>(xs: seq<T>, x: T)
    ensures |xs + [x]| == |xs| + 1 && (xs + [x])[|xs|] == x
    ensures forall i :: 0 <= i < |xs| ==> (xs + [x])[i] == xs[i]
  {
  }

  /** `parsePlacesFromText(text, chunks)`: the entries of the text, each
      turned into a place; ids are pairwise different. */
  method ParsePlacesFromText(text: string, chunks: seq<GroundingChunk>,
                             lower: string -> string, clock: nat -> nat)
    returns (places: seq<Place>)
    ensures IsParseOf(places, text, chunks, lower, clock)
    ensures forall i, j :: 0 <= i < j < |places| ==> places[i].id != places[j].id
    ensures forall i :: 0 <= i < |places| ==> places[i].imageUrl == Some(ImageUrl(i))
  {
    var entries := Entries(text);
    places := PlacesFromEntries(entries, chunks, lower, clock);
    ParsedIdsDistinct(places, text, chunks, lower, clock);
  }

  // ================================================================
  // discoverHiddenGems
  // ================================================================

  datatype Coordinates = Coordinates(lat: real, lng: real)

  /** What the discovery prompt and its configuration are built from. */
  datatype DiscoveryRequest = DiscoveryRequest(destination: string, interests: string, location: Option<Coordinates>)

  /** The outcome of `generateContent`: it throws, or it returns a response
      whose `text` and grounding chunks may each be missing. */
  datatype DiscoveryResponse =
    | DiscoveryFailed
    | DiscoveryAnswer(text: Option<string>, chunks: Option<seq<GroundingChunk>>)

  datatype Discovery = Discovery(places: seq<Place>, chunks: seq<GroundingChunk>)

  const DiscoveryError: string := "Failed to discover places. Please try again."

  /** `interests.length > 0 ? interests.join(", ") : "culture and food"`. */
  function InterestString(interests: seq<string>): string {
    if |interests| > 0 then Join(interests, ", ") else "culture and food"
  }

  /** The interest string lists the interests: split on commas and trimmed it
      gives them back, trimmed, when none holds a comma; an empty list reads
      "culture and food". */
  lemma InterestStringLists(interests: seq<string>)
    requires forall i :: 0 <= i < |interests| ==> ',' !in interests[i]
    ensures |interests| == 0 ==> InterestString(interests) == "culture and food"
    ensures |interests| > 0 ==> TrimEach(Split(InterestString(interests), ',')) == TrimEach(interests)
  {
    if |interests| > 0 {
      SplitCommaSpaceJoin(interests);
    }
  }

  /** `discoverHiddenGems(destination, interests, userLocation)`. */
  method DiscoverHiddenGems(destination: string, interests: seq<string>, userLocation: Option<Coordinates>,
                            generate: DiscoveryRequest -> DiscoveryResponse,
                            lower: string -> string, clock: nat -> nat)
    returns (r: Result<Discovery, string>)
    ensures var response := generate(DiscoveryRequest(destination, InterestString(interests), userLocation));
      match response
      case DiscoveryFailed => r == Failure(DiscoveryError)
      case DiscoveryAnswer(text, chunks) =>
        && r.Success?
        && r.value.chunks == chunks.GetOr([])
        && IsParseOf(r.value.places, text.GetOr(""), chunks.GetOr([]), lower, clock)
    ensures r.Success? ==> forall i, j :: 0 <= i < j < |r.value.places| ==> r.value.places[i].id != r.value.places[j].id
  {
    var response := generate(DiscoveryRequest(destination, InterestString(interests), userLocation));
    match response
    case DiscoveryFailed =>
      r := Failure(DiscoveryError);
    case DiscoveryAnswer(text, chunks) =>
      var found := chunks.GetOr([]);
      var places := ParsePlacesFromText(text.GetOr(""), found, lower, clock);
      r := Success(Discovery(places, found));
  }

  // ================================================================
  // generateItinerary
  // ================================================================

  /** What the itinerary prompt is built from. */
  datatype ItineraryRequest = ItineraryRequest(destination: string, stops: string)

  /** The outcome of `generateContent`: it throws, or it returns a response
      whose `text` may be missing (then `text.trim()` throws). */
  datatype ItineraryResponse = ItineraryFailed | ItineraryAnswer(text: Option<string>)

  function Names(places: seq<Place>): (r: seq<string>)
    ensures |r| == |places| && forall i :: 0 <= i < |places| ==> r[i] == places[i].name
  {
    seq(|places|, i requires 0 <= i < |places| => places[i].name)
  }

  /** `selectedPlaces.map(p => p.name).join(", ")`. */
  function PlaceNames(selected: seq<Place>): string {
    Join(Names(selected), ", ")
  }

  /** The stop list names every selected place: split on commas and trimmed
      it gives the trimmed names back, in order, when no name holds a comma. */
  lemma PlaceNamesLists(selected: seq<Place>)
    requires |selected| > 0
    requires forall i :: 0 <= i < |selected| ==> ',' !in selected[i].name
    ensures TrimEach(Split(PlaceNames(selected), ',')) == TrimEach(Names(selected))
  {
    SplitCommaSpaceJoin(Names(selected));
  }

  /** `jsonStr.replace(/```json/g, '').replace(/```/g, '')`. */
  function StripFences(s: string): string {
    RemoveAll(RemoveAll(s, "```json"), "```")
  }

  /** The text given to `JSON.parse`: the response text trimmed, then with its
      code fences removed. */
  function CleanJson(text: string): string {
    StripFences(Trim(text))
  }

  /** No code fence survives the stripping. */
  lemma StripFencesRemovesAll(s: string)
    ensures !Contains(StripFences(s), "```")
  {
    RemoveAllBackticks(RemoveAll(s, "```json"));
  }

  /** Stripping fences twice is stripping them once. */
  lemma StripFencesIdempotent(s: string)
    ensures StripFences(StripFences(s)) == StripFences(s)
  {
    var t := StripFences(s);
    StripFencesRemovesAll(s);
    ContainsPrefix(t, "```json", 3);
    assert "```json"[..3] == "```";
    RemoveAllAbsent(t, "```json");
    RemoveAllAbsent(t, "```");
  }

  /** A JSON body wrapped in a "```json" ... "```" fence is handed to the
      parser without the fence. */
  lemma CleanJsonUnwraps(body: string)
    requires '`' !in body
    ensures CleanJson("```json" + body + "```") == body
  {
    var fenced := "```json" + body + "```";
    TrimUnchanged(fenced);
    assert fenced[..7] == "```json" && fenced[7..] == body + "```";
    RemoveAllSkips(body, "```", "```json");
    assert RemoveAll(fenced, "```json") == body + "```";
    RemoveAllSkips(body, "```", "```");
    assert RemoveAll("```", "```") == "";
  }

  /** Item `i` of the fallback itinerary. */
  function FallbackItem(p: Place, i: nat): ItineraryItem {
    ItineraryItem(NatToString(9 + i * 2) + ":00", "Visit " + p.name, p.description, None)
  }

  /** The itinerary returned when the call or the parse fails. */
  function FallbackItinerary(selected: seq<Place>): Itinerary {
    Itinerary("Your Custom Day", seq(|selected|, i requires 0 <= i < |selected| => FallbackItem(selected[i], i)))
  }

  /** The hour of a "H:00" time marker. */
  function HourOf(time: string): nat
    requires |time| >= 3 && AllDigits(time[..|time| - 3])
  {
    DecimalValue(time[..|time| - 3])
  }

  /** The fallback plan has one stop per selected place, in order: stop `i`
      is at hour 9 + 2i on the hour, with no upper bound on the hour, visits
      the place by name and copies its description. */
  lemma FallbackSchedule(selected: seq<Place>)
    ensures var it := FallbackItinerary(selected);
      && it.title == "Your Custom Day"
      && |it.items| == |selected|
      && forall i :: 0 <= i < |selected| ==>
        && it.items[i].activity == "Visit " + selected[i].name
        && it.items[i].description == selected[i].description
        && it.items[i].placeId == None
        && |it.items[i].time| >= 4
        && it.items[i].time[|it.items[i].time| - 3..] == ":00"
        && AllDigits(it.items[i].time[..|it.items[i].time| - 3])
        && HourOf(it.items[i].time) == 9 + 2 * i
  {
    var it := FallbackItinerary(selected);
    forall i | 0 <= i < |selected|
      ensures |it.items[i].time| >= 4
      ensures it.items[i].time[|it.items[i].time| - 3..] == ":00"
      ensures AllDigits(it.items[i].time[..|it.items[i].time| - 3])
      ensures HourOf(it.items[i].time) == 9 + 2 * i
    {
      var digits := NatToString(9 + i * 2);
      assert it.items[i].time == digits + ":00";
      assert it.items[i].time[..|it.items[i].time| - 3] == digits;
      DecimalRoundTrip(9 + i * 2);
    }
  }

  /** `generateItinerary(destination, selectedPlaces)`. It never throws:
      the result is the parsed value of the cleaned response text when there
      is response text and it parses, and the fallback plan otherwise. */
  function GenerateItinerary(destination: string, selected: seq<Place>,
                             generate: ItineraryRequest -> ItineraryResponse,
                             parseJson: string -> Option<Itinerary>): (r: Itinerary)
    ensures var response := generate(ItineraryRequest(destination, PlaceNames(selected)));
      r == FallbackItinerary(selected)
      || (response.ItineraryAnswer? && response.text.Some?
          && parseJson(CleanJson(response.text.value)) == Some(r))
    ensures var response := generate(ItineraryRequest(destination, PlaceNames(selected)));
      (response.ItineraryFailed? || response.text.None? || parseJson(CleanJson(response.text.value)).None?)
      ==> r == FallbackItinerary(selected)
    ensures var response := generate(ItineraryRequest(destination, PlaceNames(selected)));
      response.ItineraryAnswer? && response.text.Some? && parseJson(CleanJson(response.text.value)).Some?
      ==> r == parseJson(CleanJson(response.text.value)).value
  {
    match generate(ItineraryRequest(destination, PlaceNames(selected)))
    case ItineraryFailed => FallbackItinerary(selected)
    case ItineraryAnswer(text) =>
      match text
      case None => FallbackItinerary(selected)
      case Some(t) =>
        match parseJson(CleanJson(t))
        case Some(parsed) => parsed
        case None => FallbackItinerary(selected)
  }
}
