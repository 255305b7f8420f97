/** The analyzer's AS_PATH text parser. The text is the presentation of the
    AS_PATH attribute of section 4.3 of RFC 4271: AS numbers separated by
    whitespace, with an AS_SET written as numbers in braces between commas. */
module AsPathParser {
  import opened AsPaths
  import opened Text

  /** The ASN a comma-separated piece contributes, if it is a number. */
  function PieceAsn(piece: string): AsPath {
    var text := Trim(piece, Blanks);
    if IsDecimal(text) then [ParseDecimal(text)] else []
  }

  function PieceAsns(pieces: seq<string>): AsPath {
    if pieces == [] then []
    else PieceAsns(pieces[..|pieces| - 1]) + PieceAsn(pieces[|pieces| - 1])
  }

  /** The comma-separated pieces of a token, braces removed. */
  function Pieces(token: string): seq<string> {
    Split(Trim(token, Braces), ',')
  }

  function TokenAsns(token: string): AsPath {
    PieceAsns(Pieces(token))
  }

  function TokensAsns(tokens: seq<string>): AsPath {
    if tokens == [] then []
    else TokensAsns(tokens[..|tokens| - 1]) + TokenAsns(tokens[|tokens| - 1])
  }

  /** Every ASN written in the text, in order, before duplicates are dropped. */
  function TextAsns(text: string): AsPath {
    TokensAsns(Words(text))
  }

  /** What the parser returns on a text. */
  function Parsed(text: string): AsPath {
    RunCompress(TextAsns(text))
  }

  method ParseAsPath(text: string) returns (asns: AsPath)
    ensures asns == Parsed(text)
  {
    if text == "" {
      return [];
    }
    asns := [];
    var tokens := Words(text);
    for i := 0 to |tokens|
      invariant asns == RunCompress(TokensAsns(tokens[..i]))
    {
      TokenStep(tokens, i);
      asns := ParsePieces(Pieces(tokens[i]), asns);
    }
    assert tokens[..|tokens|] == tokens;
  }

  /** The inner loop: appends the ASNs of one token's pieces to the path read so far. */
  method ParsePieces(pieces: seq<string>, path: AsPath) returns (asns: AsPath)
    ensures asns == AppendAll(path, PieceAsns(pieces))
  {
    asns := path;
    ghost var read: AsPath := [];
    for j := 0 to |pieces|
      invariant read == PieceAsns(pieces[..j])
      invariant asns == AppendAll(path, read)
    {
      PieceAsnsStep(pieces, j);
      var number := PieceAsn(pieces[j]);
      if number != [] {
        AppendAllSnoc(path, read, number[0]);
        read := read + [number[0]];
        if asns == [] || asns[|asns| - 1] != number[0] {
          asns := asns + [number[0]];
        }
      }
    }
    assert pieces[..|pieces|] == pieces;
  }

  lemma TokenStep(tokens: seq<string>, i: nat)
    requires i < |tokens|
    ensures RunCompress(TokensAsns(tokens[..i + 1])) == AppendAll(RunCompress(TokensAsns(tokens[..i])), TokenAsns(tokens[i]))
  {
    assert tokens[..i + 1][..i] == tokens[..i];
    RunCompressAppend(TokensAsns(tokens[..i]), TokenAsns(tokens[i]));
  }

  lemma PieceAsnsStep(pieces: seq<string>, j: nat)
    requires j < |pieces|
    ensures PieceAsns(pieces[..j + 1]) ==
      if PieceAsn(pieces[j]) == [] then PieceAsns(pieces[..j]) else PieceAsns(pieces[..j]) + [PieceAsn(pieces[j])[0]]
  {
    assert pieces[..j + 1][..j] == pieces[..j];
  }

  // ---------- Rendering, the parser's partner ----------

  datatype Segment = Single(asn: nat) | AsSet(members: seq<nat>)

  function Decimals(asns: seq<nat>): seq<string> {
    seq(|asns|, i requires 0 <= i < |asns| => Decimal(asns[i]))
  }

  function RenderSegment(segment: Segment): string {
    match segment
    case Single(asn) => Decimal(asn)
    case AsSet(members) => "{" + Join(Decimals(members), ',') + "}"
  }

  function SegmentAsns(segment: Segment): AsPath {
    match segment
    case Single(asn) => [asn]
    case AsSet(members) => members
  }

  function Flatten(segments: seq<Segment>): AsPath {
    if segments == [] then []
    else Flatten(segments[..|segments| - 1]) + SegmentAsns(segments[|segments| - 1])
  }

  /** `gaps[i]` is the whitespace written before segment `i`. */
  ghost predicate Gaps(gaps: seq<string>, tail: string) {
    && IsBlank(tail)
    && (forall i | 0 <= i < |gaps| :: IsBlank(gaps[i]))
    && (forall i | 0 < i < |gaps| :: gaps[i] != "")
  }

  function Render(segments: seq<Segment>, gaps: seq<string>, tail: string): string
    requires |gaps| == |segments|
  {
    if segments == [] then tail
    else gaps[0] + (RenderSegment(segments[0]) + Render(segments[1..], gaps[1..], tail))
  }

  function SegmentTexts(segments: seq<Segment>): seq<string> {
    seq(|segments|, i requires 0 <= i < |segments| => RenderSegment(segments[i]))
  }

  predicate PlainChar(c: char) { IsDigit(c) || c == ',' }

  lemma {:induction false} JoinedDigits(asns: seq<nat>)
    ensures var text := Join(Decimals(asns), ',');
      && (forall i | 0 <= i < |text| :: PlainChar(text[i]))
      && (asns != [] ==> text != "" && IsDigit(text[0]) && IsDigit(text[|text| - 1]))
  {
    if asns != [] {
      DecimalRoundTrip(asns[0]);
      if |asns| > 1 {
        assert Decimals(asns)[1..] == Decimals(asns[1..]);
        JoinedDigits(asns[1..]);
      }
    }
  }

  lemma RenderedIsWord(segment: Segment)
    ensures IsWord(RenderSegment(segment))
  {
    match segment
    case Single(asn) => DecimalRoundTrip(asn);
    case AsSet(members) => JoinedDigits(members);
  }

  lemma {:induction false} PieceAsnsOfDecimals(asns: seq<nat>)
    ensures PieceAsns(Decimals(asns)) == asns
  {
    if asns != [] {
      var front, last := asns[..|asns| - 1], asns[|asns| - 1];
      assert Decimals(asns)[..|asns| - 1] == Decimals(front);
      PieceAsnsOfDecimals(front);
      DecimalRoundTrip(last);
      TrimKeeps(Decimal(last), Blanks);
    }
  }

  lemma TrimKeeps(s: string, cut: Cut)
    requires s == "" || (!IsCut(s[0], cut) && !IsCut(s[|s| - 1], cut))
    ensures Trim(s, cut) == s
  {
  }

  lemma TrimBraced(inner: string)
    requires inner == "" || (!IsCut(inner[0], Braces) && !IsCut(inner[|inner| - 1], Braces))
    ensures Trim("{" + inner + "}", Braces) == inner
  {
    var s := "{" + inner + "}";
    assert s[1..] == inner + "}";
    if inner == "" {
      assert s[1..] == "}" && "}"[1..] == "";
      assert TrimLeft("}", Braces) == TrimLeft("", Braces);
    } else {
      var t := inner + "}";
      assert t[0] == inner[0] && t[|inner|] == '}';
      assert TrimLeft(s, Braces) == t;
      assert t[..|inner|] == inner;
      assert TrimRight(t, Braces) == TrimRight(inner, Braces);
    }
  }

  lemma TokenAsnsOfRendered(segment: Segment)
    ensures TokenAsns(RenderSegment(segment)) == SegmentAsns(segment)
  {
    match segment
    case Single(asn) =>
      DecimalRoundTrip(asn);
      assert Join(Decimals([asn]), ',') == Decimal(asn);
      TrimKeeps(Decimal(asn), Braces);
      SplitJoin(Decimals([asn]), ',');
      PieceAsnsOfDecimals([asn]);
    case AsSet(members) =>
      JoinedDigits(members);
      TrimBraced(Join(Decimals(members), ','));
      if members == [] {
        TrimKeeps("", Blanks);
        assert [""][..0] == [];
      } else {
        forall i | 0 <= i < |members| ensures ',' !in Decimals(members)[i] {
          DecimalRoundTrip(members[i]);
        }
        SplitJoin(Decimals(members), ',');
        PieceAsnsOfDecimals(members);
      }
  }

  lemma {:induction false} WordsOfRendered(segments: seq<Segment>, gaps: seq<string>, tail: string)
    requires |gaps| == |segments| && Gaps(gaps, tail)
    ensures Words(Render(segments, gaps, tail)) == SegmentTexts(segments)
  {
    if segments == [] {
      WordsAfterBlank(tail, "");
      assert tail + "" == tail;
    } else {
      var rest := Render(segments[1..], gaps[1..], tail);
      WordsOfRendered(segments[1..], gaps[1..], tail);
      RenderedIsWord(segments[0]);
      if |segments| > 1 {
        assert rest[0] == gaps[1][0];
      }
      WordsAfterBlank(gaps[0], RenderSegment(segments[0]) + rest);
      WordsAfterWord(RenderSegment(segments[0]), rest);
    }
  }

  lemma {:induction false} TokensAsnsOfRendered(segments: seq<Segment>)
    ensures TokensAsns(SegmentTexts(segments)) == Flatten(segments)
  {
    if segments != [] {
      var n := |segments| - 1;
      assert SegmentTexts(segments)[..n] == SegmentTexts(segments[..n]);
      TokensAsnsOfRendered(segments[..n]);
      TokenAsnsOfRendered(segments[n]);
    }
  }

  ghost predicate Written(text: string, asns: AsPath, segments: seq<Segment>, gaps: seq<string>, tail: string) {
    && |gaps| == |segments|
    && Gaps(gaps, tail)
    && text == Render(segments, gaps, tail)
    && asns == Flatten(segments)
  }

  /** `text` writes `asns`, as single numbers and brace sets with whitespace between. */
  ghost predicate Writes(text: string, asns: AsPath) {
    exists segments, gaps, tail :: Written(text, asns, segments, gaps, tail)
  }

  lemma TextAsnsOfWritten(text: string, asns: AsPath)
    requires Writes(text, asns)
    ensures TextAsns(text) == asns
  {
    var segments, gaps, tail :| Written(text, asns, segments, gaps, tail);
    WordsOfRendered(segments, gaps, tail);
    TokensAsnsOfRendered(segments);
  }

  /** Parsing any rendering of ASNs gives the repeat-free route they stretch, which
      ends in the last ASN written. */
  lemma {:induction false} ParseOfRendering(text: string, asns: AsPath)
    requires Writes(text, asns)
    ensures Stretches(asns, Parsed(text)) && NoAdjacentRepeats(Parsed(text))
    ensures asns != [] ==> Parsed(text) != [] && Last(Parsed(text)) == Last(asns)
  {
    TextAsnsOfWritten(text, asns);
    RunCompressUnique(asns, RunCompress(asns));
    RunCompressShape(asns);
  }

  /** Extra prepending does not show: texts of two stretchings of one route parse alike. */
  lemma {:induction false} PrependingInvisible(text: string, asns: AsPath, other: string, more: AsPath, route: AsPath)
    requires Writes(text, asns) && Stretches(asns, route)
    requires Writes(other, more) && Stretches(more, route)
    ensures Parsed(text) == Parsed(other) == RunCompress(route)
  {
    TextAsnsOfWritten(text, asns);
    TextAsnsOfWritten(other, more);
    StretchesSameCompression(asns, route);
    StretchesSameCompression(more, route);
  }

  function Singles(path: seq<nat>): seq<Segment> {
    seq(|path|, i requires 0 <= i < |path| => Single(path[i]))
  }

  lemma {:induction false} FlattenSingles(path: seq<nat>)
    ensures Flatten(Singles(path)) == path
  {
    if path != [] {
      var n := |path| - 1;
      assert Singles(path)[..n] == Singles(path[..n]);
      FlattenSingles(path[..n]);
    }
  }

  /** One space before every ASN but the first. */
  function SpaceGaps(n: nat): seq<string> {
    seq(n, i => if i == 0 then "" else " ")
  }

  lemma {:induction false} RenderSingles(path: seq<nat>)
    requires path != []
    ensures Render(Singles(path), SpaceGaps(|path|), "") == Join(Decimals(path), ' ')
    ensures Render(Singles(path), [" "] + SpaceGaps(|path|)[1..], "") == " " + Join(Decimals(path), ' ')
  {
    var n := |path|;
    assert Singles(path)[1..] == Singles(path[1..]);
    assert Decimals(path)[1..] == Decimals(path[1..]);
    if n == 1 {
      assert Render(Singles(path)[1..], SpaceGaps(n)[1..], "") == "";
    } else {
      RenderSingles(path[1..]);
      assert SpaceGaps(n)[1..] == [" "] + SpaceGaps(n - 1)[1..];
      assert ([" "] + SpaceGaps(n)[1..])[1..] == SpaceGaps(n)[1..];
    }
  }

  lemma CompressedOnlyIfFixed(path: AsPath)
    ensures RunCompress(path) == path <==> NoAdjacentRepeats(path)
  {
    RunCompressShape(path);
    if NoAdjacentRepeats(path) {
      CompressedIsFixed(path);
    }
  }

  /** Plain decimal printing is one way to write a path. */
  lemma PrintedIsWritten(path: seq<nat>)
    ensures Writes(Join(Decimals(path), ' '), path)
  {
    FlattenSingles(path);
    if path != [] {
      RenderSingles(path);
    }
    assert Written(Join(Decimals(path), ' '), path, Singles(path), SpaceGaps(|path|), "");
  }

  /** Parsing inverts plain printing exactly on paths without adjacent repeats. */
  lemma {:induction false} ParseInvertsPrinting(path: seq<nat>)
    ensures Parsed(Join(Decimals(path), ' ')) == path <==> NoAdjacentRepeats(path)
  {
    PrintedIsWritten(path);
    TextAsnsOfWritten(Join(Decimals(path), ' '), path);
    CompressedOnlyIfFixed(path);
  }
}
