/** The site cloner of scraper.js: the global replace that points relative `href`/`src`
    values into `assets/` (lines 33-38), the local name of a downloaded asset (line 61),
    and the download loop with its try/catch/finally (lines 9-70). The browser, the
    network and the file system are inputs: a visit says whether the page loaded, what its
    HTML is, whether each write succeeded and which assets were listed and saved. */
module SiteClone {
  import opened Outcomes
  import opened Strings
  import opened PosixPath

  // ---------------------------------------------------------------------------
  // The pattern /(href|src)=("|')([^"']+)/g

  const Href: string := "href"
  const Src: string := "src"
  const HrefOpen: string := "href="
  const SrcOpen: string := "src="

  predicate IsQuote(c: char) {
    c == '"' || c == '\''
  }

  /** Where the greedy `[^"']+` stops when it starts at `i`: the first quote at or after
      `i`, or the end of the text. */
  function RunEnd(s: string, i: nat): (e: nat)
    requires i <= |s|
    ensures i <= e <= |s|
    decreases |s| - i
  {
    if i == |s| || IsQuote(s[i]) then i else RunEnd(s, i + 1)
  }

  /** The run holds no quote and cannot be extended. */
  lemma {:induction false} RunEndSpec(s: string, i: nat)
    requires i <= |s|
    ensures forall k :: i <= k < RunEnd(s, i) ==> !IsQuote(s[k])
    ensures RunEnd(s, i) < |s| ==> IsQuote(s[RunEnd(s, i)])
    decreases |s| - i
  {
    if i < |s| && !IsQuote(s[i]) {
      RunEndSpec(s, i + 1);
    }
  }

  /** One match: the attribute name, the opening quote and the value, as the callback
      receives them in `p1`, `p2` and `p3`. */
  datatype Attribute = Attribute(name: string, quote: char, value: string)

  /** The matched text, `match` in the callback. */
  function AttributeText(a: Attribute): string {
    a.name + "=" + [a.quote] + a.value
  }

  /** The length of the matched text. */
  function Width(a: Attribute): nat {
    |a.name| + 2 + |a.value|
  }

  /** Groups the pattern can capture: `href` or `src`, a quote, and a non-empty value
      without quotes. */
  predicate Groups(a: Attribute) {
    && (a.name == Href || a.name == Src)
    && IsQuote(a.quote)
    && a.value != [] && (forall k :: 0 <= k < |a.value| ==> !IsQuote(a.value[k]))
  }

  /** The pattern matches at `p` with groups `a`: a name, `=`, a quote, then a non-empty
      quote-free value that the greedy class cannot extend. The closing quote is not part
      of the match, and nothing before `p` is looked at. */
  predicate Matches(s: string, p: int, a: Attribute) {
    var n := |a.name|;
    var e := p + Width(a);
    && Groups(a)
    && 0 <= p && e <= |s|
    && s[p..p + n] == a.name && s[p + n] == '=' && s[p + n + 1] == a.quote
    && s[p + n + 2..e] == a.value
    && (e < |s| ==> IsQuote(s[e]))
  }

  /** What a match covers is the callback's `match`. */
  lemma MatchedText(s: string, p: int, a: Attribute)
    requires Matches(s, p, a)
    ensures s[p..p + Width(a)] == AttributeText(a)
  {
    var n := |a.name|;
    assert s[p..p + Width(a)] == s[p..p + n] + [s[p + n]] + [s[p + n + 1]] + s[p + n + 2..p + Width(a)];
  }

  /** The literal `href=` of the pattern starts at `p`. */
  predicate HrefAt(s: string, p: nat) {
    p + 5 <= |s| && s[p] == 'h' && s[p + 1] == 'r' && s[p + 2] == 'e' && s[p + 3] == 'f' && s[p + 4] == '='
  }

  /** The literal `src=` of the pattern starts at `p`. */
  predicate SrcAt(s: string, p: nat) {
    p + 4 <= |s| && s[p] == 's' && s[p + 1] == 'r' && s[p + 2] == 'c' && s[p + 3] == '='
  }

  lemma LiteralsAt(s: string, p: nat)
    ensures HrefAt(s, p) <==> OccursAt(s, HrefOpen, p)
    ensures SrcAt(s, p) <==> OccursAt(s, SrcOpen, p)
  {
    if p + 5 <= |s| {
      var w := s[p..p + 5];
      assert w[0] == s[p] && w[1] == s[p + 1] && w[2] == s[p + 2] && w[3] == s[p + 3] && w[4] == s[p + 4];
    }
    if p + 4 <= |s| {
      var w := s[p..p + 4];
      assert w[0] == s[p] && w[1] == s[p + 1] && w[2] == s[p + 2] && w[3] == s[p + 3];
    }
  }

  /** The length of the name the attempt at `p` reads, 0 if none: `href` is tried before
      `src`, and the two cannot both start at one position. */
  function NameLength(s: string, p: nat): nat {
    if HrefAt(s, p) then |Href| else if SrcAt(s, p) then |Src| else 0
  }

  /** The attempt at position `p`. */
  function MatchAt(s: string, p: nat): (r: Option<Attribute>)
    requires p <= |s|
    ensures r.Some? ==> p + Width(r.value) <= |s|
  {
    var n := NameLength(s, p);
    var q := p + n + 1;
    if n > 0 && q < |s| && IsQuote(s[q]) then
      var e := RunEnd(s, q + 1);
      if q + 1 < e then Some(Attribute(s[p..p + n], s[q], s[q + 1..e])) else None
    else None
  }

  /** The name read at `p` is the name of any match at `p`. */
  lemma NameAtMatch(s: string, p: nat, a: Attribute)
    requires Matches(s, p, a)
    ensures NameLength(s, p) == |a.name|
  {
    var n := |a.name|;
    LiteralsAt(s, p);
    assert s[p..p + n + 1] == s[p..p + n] + [s[p + n]];
    if a.name == Src {
      assert s[p] == s[p..p + n][0];
    }
  }

  /** A match at `p` is what the attempt at `p` finds. */
  lemma MatchAtComplete(s: string, p: nat, a: Attribute)
    requires Matches(s, p, a)
    ensures MatchAt(s, p) == Some(a)
  {
    NameAtMatch(s, p, a);
    var n := |a.name|;
    var e := p + Width(a);
    forall k | p + n + 2 <= k < e ensures !IsQuote(s[k]) {
      assert s[k] == a.value[k - (p + n + 2)];
    }
    RunEndAt(s, p + n + 2, e);
    MatchAtOf(s, p, n, e, a);
  }

  /** A quote-free run that a quote or the end of the text stops is the greedy run. */
  lemma RunEndAt(s: string, i: nat, e: nat)
    requires i <= e <= |s| && (forall k :: i <= k < e ==> !IsQuote(s[k]))
    requires e < |s| ==> IsQuote(s[e])
    ensures RunEnd(s, i) == e
  {
    RunEndSpec(s, i);
  }

  /** The attempt at `p` once its name, its quote and its run are known. */
  lemma MatchAtOf(s: string, p: nat, n: nat, e: nat, a: Attribute)
    requires NameLength(s, p) == n > 0 && p + n + 2 < e <= |s| && IsQuote(s[p + n + 1])
    requires RunEnd(s, p + n + 2) == e
    requires a == Attribute(s[p..p + n], s[p + n + 1], s[p + n + 2..e])
    ensures MatchAt(s, p) == Some(a)
  {
  }

  /** What the attempt at `p` finds is a match at `p`. */
  lemma MatchAtSound(s: string, p: nat)
    requires p <= |s| && MatchAt(s, p).Some?
    ensures Matches(s, p, MatchAt(s, p).value)
  {
    var a := MatchAt(s, p).value;
    var n := NameLength(s, p);
    NameText(s, p);
    RunEndSpec(s, p + n + 2);
    assert Groups(a) by {
      forall k | 0 <= k < |a.value| ensures !IsQuote(a.value[k]) {
        assert a.value[k] == s[p + n + 2 + k];
      }
    }
  }

  /** A name read at `p` is `href` or `src`, followed by `=`. */
  lemma NameText(s: string, p: nat)
    requires NameLength(s, p) > 0
    ensures var n := NameLength(s, p); p + n < |s| && (s[p..p + n] == Href || s[p..p + n] == Src) && s[p + n] == '='
  {
    if HrefAt(s, p) {
      assert s[p..p + 4] == Href;
    } else {
      assert s[p..p + 3] == Src;
    }
  }

  /** What the attempt at `p` finds is the text there. */
  lemma MatchAtText(s: string, p: nat)
    requires p <= |s| && MatchAt(s, p).Some?
    ensures var a := MatchAt(s, p).value; s[p..p + Width(a)] == AttributeText(a)
  {
    MatchAtSound(s, p);
    MatchedText(s, p, MatchAt(s, p).value);
  }

  /** The attempt finds exactly the match the pattern defines. */
  lemma MatchAtSpec(s: string, p: nat, a: Attribute)
    requires p <= |s|
    ensures MatchAt(s, p) == Some(a) <==> Matches(s, p, a)
  {
    if Matches(s, p, a) {
      MatchAtComplete(s, p, a);
    }
    if MatchAt(s, p) == Some(a) {
      MatchAtSound(s, p);
    }
  }

  // ---------------------------------------------------------------------------
  // The replace callback (lines 34-37)

  const HttpPrefix: string := "http"
  const ProtocolRelativePrefix: string := "//"
  const AssetsDirectory: string := "assets"

  /** The prefix test of line 34: not a classification of URLs. */
  predicate Absolute(v: string) {
    StartsWith(v, HttpPrefix) || StartsWith(v, ProtocolRelativePrefix)
  }

  /** What the callback returns for a match. */
  function Replacement(a: Attribute): string {
    if Absolute(a.value) then AttributeText(a)
    else a.name + "=" + [a.quote] + PathJoin([AssetsDirectory, a.value])
  }

  /** The callback keeps the name and the quote, and changes the value only when it is
      not absolute. */
  lemma ReplacementSpec(a: Attribute)
    ensures Absolute(a.value) ==> Replacement(a) == AttributeText(a)
    ensures !Absolute(a.value) ==> Replacement(a) == AttributeText(Attribute(a.name, a.quote, PathJoin([AssetsDirectory, a.value])))
  {
  }

  /** A relative value without `..` segments is rewritten to a path inside `assets`. */
  lemma RewrittenValueInAssets(v: string)
    requires !Absolute(v) && ".." !in Split(v, '/')
    ensures var w := PathJoin([AssetsDirectory, v]);
            StartsWith(w, AssetsDirectory) && (|w| == |AssetsDirectory| || w[|AssetsDirectory|] == '/')
  {
    JoinStaysUnder(AssetsDirectory, v);
  }

  // ---------------------------------------------------------------------------
  // The global replace (line 33): a left-to-right scan over the HTML

  /** A stretch of the scanned text: one character copied, or one match replaced. */
  datatype Piece = Copied(c: char) | Replaced(attr: Attribute)

  /** The piece at `p`: the match found there, or the character there when the attempt
      fails. */
  function PieceAt(s: string, p: nat): (r: Piece)
    requires p < |s|
    ensures p < p + PieceWidth(r) <= |s|
  {
    match MatchAt(s, p)
    case Some(a) => Replaced(a)
    case None => Copied(s[p])
  }

  /** How much of the text a piece covers. */
  function PieceWidth(piece: Piece): nat {
    match piece
    case Copied(_) => 1
    case Replaced(a) => Width(a)
  }

  /** The matches of a global search from `p` on: each search resumes where the previous
      match ended, and a position where nothing matches is copied. */
  function Scan(s: string, p: nat): seq<Piece>
    requires p <= |s|
    decreases |s| - p
  {
    if p == |s| then []
    else
      var piece := PieceAt(s, p);
      [piece] + Scan(s, p + PieceWidth(piece))
  }

  /** The text a piece was made from. */
  function PieceText(piece: Piece): string {
    match piece
    case Copied(c) => [c]
    case Replaced(a) => AttributeText(a)
  }

  /** The pieces put back together as found. */
  function Original(pieces: seq<Piece>): string {
    if pieces == [] then "" else PieceText(pieces[0]) + Original(pieces[1..])
  }

  /** The pieces put back together with every match replaced by the callback's result. */
  function Substituted(pieces: seq<Piece>): string {
    if pieces == [] then ""
    else
      match pieces[0]
      case Copied(c) => [c] + Substituted(pieces[1..])
      case Replaced(a) => Replacement(a) + Substituted(pieces[1..])
  }

  /** `html.replace(/(href|src)=("|')([^"']+)/g, callback)`. */
  function RewriteLinks(html: string): string {
    Substituted(Scan(html, 0))
  }

  /** One step of the scan: the piece at `p`, then the scan from where it ends. */
  lemma ScanStep(s: string, p: nat)
    requires p < |s|
    ensures Scan(s, p) == [PieceAt(s, p)] + Scan(s, p + PieceWidth(PieceAt(s, p)))
  {
  }

  lemma ScanEnd(s: string)
    ensures Scan(s, |s|) == [] && Original([]) == s[|s|..]
  {
  }

  /** The piece at `p` is made from the text it covers. */
  lemma PieceAtText(s: string, p: nat)
    requires p < |s|
    ensures s[p..p + PieceWidth(PieceAt(s, p))] == PieceText(PieceAt(s, p))
  {
    if MatchAt(s, p).Some? {
      MatchAtText(s, p);
    } else {
      assert s[p..p + 1] == [s[p]];
    }
  }

  /** The scan loses nothing: its pieces, as found, are the text scanned. */
  lemma {:induction false} ScanRoundTrip(s: string, p: nat)
    requires p <= |s|
    ensures Original(Scan(s, p)) == s[p..]
    decreases |s| - p
  {
    if p == |s| {
      ScanEnd(s);
    } else {
      var piece := PieceAt(s, p);
      var e := p + PieceWidth(piece);
      ScanRoundTrip(s, e);
      ScanStep(s, p);
      PieceAtText(s, p);
      assert p <= e <= |s|;
      assert Scan(s, p) == [piece] + Scan(s, e);
      assert Original(Scan(s, e)) == s[e..];
      assert PieceText(piece) == s[p..e];
      Reassemble(s, p, e, Scan(s, p), Scan(s, e), piece);
    }
  }

  /** A piece that spells the text up to `e`, followed by pieces that spell the rest. */
  lemma Reassemble(s: string, p: nat, e: nat, pieces: seq<Piece>, rest: seq<Piece>, piece: Piece)
    requires p <= e <= |s|
    requires pieces == [piece] + rest
    requires Original(rest) == s[e..]
    requires PieceText(piece) == s[p..e]
    ensures Original(pieces) == s[p..]
  {
    assert pieces[1..] == rest;
    assert s[p..] == s[p..e] + s[e..];
  }

  /** How much of the text the pieces cover together. */
  function Covered(pieces: seq<Piece>): nat {
    if pieces == [] then 0 else PieceWidth(pieces[0]) + Covered(pieces[1..])
  }

  /** Every replaced piece among `pieces` is a match of the pattern in `s`, where the
      pieces before it end, counting from `p`. */
  predicate MatchesInPlace(s: string, p: nat, pieces: seq<Piece>)
    decreases |pieces|
  {
    pieces == [] ||
    ((pieces[0].Replaced? ==> Matches(s, p, pieces[0].attr)) &&
     MatchesInPlace(s, p + PieceWidth(pieces[0]), pieces[1..]))
  }

  /** Every replaced piece is a match of the pattern in the scanned text, at the position
      where the pieces before it end. */
  lemma ScanMatches(s: string, p: nat)
    requires p <= |s|
    ensures forall k :: 0 <= k < |Scan(s, p)| && Scan(s, p)[k].Replaced? ==>
              Matches(s, p + Covered(Scan(s, p)[..k]), Scan(s, p)[k].attr)
  {
    ScanInPlace(s, p);
    PlacedMatches(s, p, Scan(s, p));
  }

  /** The pieces' own matches, placed one after the other. */
  lemma PlacedMatches(s: string, p: nat, pieces: seq<Piece>)
    requires MatchesInPlace(s, p, pieces)
    ensures forall k :: 0 <= k < |pieces| && pieces[k].Replaced? ==>
              Matches(s, p + Covered(pieces[..k]), pieces[k].attr)
  {
    forall k | 0 <= k < |pieces| && pieces[k].Replaced?
      ensures Matches(s, p + Covered(pieces[..k]), pieces[k].attr)
    {
      PlacedMatch(s, p, pieces, k);
    }
  }

  lemma {:induction false} ScanInPlace(s: string, p: nat)
    requires p <= |s|
    ensures MatchesInPlace(s, p, Scan(s, p))
    decreases |s| - p
  {
    if p < |s| {
      var piece := PieceAt(s, p);
      var e := p + PieceWidth(piece);
      ScanStep(s, p);
      ScanInPlace(s, e);
      if MatchAt(s, p).Some? {
        MatchAtSound(s, p);
      }
      assert Scan(s, p)[0] == piece && Scan(s, p)[1..] == Scan(s, e);
    } else {
      assert Scan(s, p) == [];
    }
  }

  /** The `k`-th piece, when replaced, is a match where the pieces before it end. */
  lemma {:induction false} PlacedMatch(s: string, p: nat, pieces: seq<Piece>, k: nat)
    requires MatchesInPlace(s, p, pieces) && k < |pieces| && pieces[k].Replaced?
    ensures Matches(s, p + Covered(pieces[..k]), pieces[k].attr)
    decreases k
  {
    if k == 0 {
      assert pieces[..0] == [];
    } else {
      PlacedRest(s, p, pieces, k);
      PlacedMatch(s, p + PieceWidth(pieces[0]), pieces[1..], k - 1);
    }
  }

  /** Past the first piece, the `k`-th piece is the `k - 1`-th of the rest, which starts
      where the first piece ends. */
  lemma PlacedRest(s: string, p: nat, pieces: seq<Piece>, k: nat)
    requires MatchesInPlace(s, p, pieces) && 0 < k < |pieces|
    ensures MatchesInPlace(s, p + PieceWidth(pieces[0]), pieces[1..])
    ensures pieces[1..][k - 1] == pieces[k]
    ensures p + Covered(pieces[..k]) == p + PieceWidth(pieces[0]) + Covered(pieces[1..][..k - 1])
  {
    var rest := pieces[1..];
    assert pieces == [pieces[0]] + rest;
    CoveredCons(pieces[0], rest, k);
  }

  /** No match of the pattern starts at `p`. */
  ghost predicate NoMatchAt(s: string, p: int) {
    forall a :: !Matches(s, p, a)
  }

  /** Every copied piece among `pieces` is the character of `s` where the pieces before
      it end, counting from `p`, and no match starts there. */
  ghost predicate CopiedInPlace(s: string, p: nat, pieces: seq<Piece>)
    decreases |pieces|
  {
    pieces == [] ||
    ((pieces[0].Copied? ==> p < |s| && s[p] == pieces[0].c && NoMatchAt(s, p)) &&
     CopiedInPlace(s, p + PieceWidth(pieces[0]), pieces[1..]))
  }

  /** The replace is global: a character the scan copies starts no match, so every match
      the scan reaches is replaced. */
  lemma ScanComplete(s: string, p: nat)
    requires p <= |s|
    ensures forall k :: 0 <= k < |Scan(s, p)| && Scan(s, p)[k].Copied? ==>
              && p + Covered(Scan(s, p)[..k]) < |s|
              && s[p + Covered(Scan(s, p)[..k])] == Scan(s, p)[k].c
              && NoMatchAt(s, p + Covered(Scan(s, p)[..k]))
  {
    ScanCopiedInPlace(s, p);
    PlacedCopies(s, p, Scan(s, p));
  }

  /** At every position the scan of the HTML reaches, its piece is replaced exactly when
      the pattern matches there, and then by that match. */
  lemma RewriteGlobal(html: string)
    ensures forall k :: 0 <= k < |Scan(html, 0)| ==>
              (Scan(html, 0)[k].Replaced? <==> exists a :: Matches(html, Covered(Scan(html, 0)[..k]), a))
    ensures forall k :: 0 <= k < |Scan(html, 0)| && Scan(html, 0)[k].Replaced? ==>
              Matches(html, Covered(Scan(html, 0)[..k]), Scan(html, 0)[k].attr)
  {
    ScanMatches(html, 0);
    ScanComplete(html, 0);
  }

  /** The copied pieces, placed one after the other. */
  lemma PlacedCopies(s: string, p: nat, pieces: seq<Piece>)
    requires CopiedInPlace(s, p, pieces)
    ensures forall k :: 0 <= k < |pieces| && pieces[k].Copied? ==>
              && p + Covered(pieces[..k]) < |s|
              && s[p + Covered(pieces[..k])] == pieces[k].c
              && NoMatchAt(s, p + Covered(pieces[..k]))
  {
    forall k | 0 <= k < |pieces| && pieces[k].Copied?
      ensures && p + Covered(pieces[..k]) < |s|
              && s[p + Covered(pieces[..k])] == pieces[k].c
              && NoMatchAt(s, p + Covered(pieces[..k]))
    {
      PlacedCopy(s, p, pieces, k);
    }
  }

  lemma {:induction false} ScanCopiedInPlace(s: string, p: nat)
    requires p <= |s|
    ensures CopiedInPlace(s, p, Scan(s, p))
    decreases |s| - p
  {
    if p < |s| {
      var piece := PieceAt(s, p);
      var e := p + PieceWidth(piece);
      ScanStep(s, p);
      ScanCopiedInPlace(s, e);
      if MatchAt(s, p).None? {
        NoMatchWhereNoneFound(s, p);
      }
      assert Scan(s, p)[0] == piece && Scan(s, p)[1..] == Scan(s, e);
    } else {
      assert Scan(s, p) == [];
    }
  }

  /** Where the attempt finds nothing, no match starts. */
  lemma NoMatchWhereNoneFound(s: string, p: nat)
    requires p <= |s| && MatchAt(s, p).None?
    ensures NoMatchAt(s, p)
  {
    forall a ensures !Matches(s, p, a) {
      if Matches(s, p, a) {
        MatchAtComplete(s, p, a);
      }
    }
  }

  /** The `k`-th piece, when copied, is the character where the pieces before it end, and
      no match starts there. */
  lemma {:induction false} PlacedCopy(s: string, p: nat, pieces: seq<Piece>, k: nat)
    requires CopiedInPlace(s, p, pieces) && k < |pieces| && pieces[k].Copied?
    ensures && p + Covered(pieces[..k]) < |s|
            && s[p + Covered(pieces[..k])] == pieces[k].c
            && NoMatchAt(s, p + Covered(pieces[..k]))
    decreases k
  {
    if k == 0 {
      assert pieces[..0] == [];
    } else {
      CopiedRest(s, p, pieces, k);
      PlacedCopy(s, p + PieceWidth(pieces[0]), pieces[1..], k - 1);
    }
  }

  /** Past the first piece, the `k`-th piece is the `k - 1`-th of the rest, which starts
      where the first piece ends. */
  lemma CopiedRest(s: string, p: nat, pieces: seq<Piece>, k: nat)
    requires CopiedInPlace(s, p, pieces) && 0 < k < |pieces|
    ensures CopiedInPlace(s, p + PieceWidth(pieces[0]), pieces[1..])
    ensures pieces[1..][k - 1] == pieces[k]
    ensures p + Covered(pieces[..k]) == p + PieceWidth(pieces[0]) + Covered(pieces[1..][..k - 1])
  {
    var rest := pieces[1..];
    assert pieces == [pieces[0]] + rest;
    CoveredCons(pieces[0], rest, k);
  }

  /** The pieces before `k` of a run that starts with `piece`. */
  lemma CoveredCons(piece: Piece, rest: seq<Piece>, k: nat)
    requires 0 < k <= |rest| + 1
    ensures Covered(([piece] + rest)[..k]) == PieceWidth(piece) + Covered(rest[..k - 1])
  {
    var front := ([piece] + rest)[..k];
    assert front[0] == piece && front[1..] == rest[..k - 1];
  }

  /** Replacing pieces whose values are all absolute changes nothing. */
  lemma {:induction false} SubstitutedAbsolute(pieces: seq<Piece>)
    requires forall k :: 0 <= k < |pieces| && pieces[k].Replaced? ==> Absolute(pieces[k].attr.value)
    ensures Substituted(pieces) == Original(pieces)
    decreases |pieces|
  {
    if pieces != [] {
      assert forall k :: 0 <= k < |pieces| - 1 ==> pieces[1..][k] == pieces[k + 1];
      SubstitutedAbsolute(pieces[1..]);
    }
  }

  /** HTML whose every match has an absolute value (in particular, HTML with no match at
      all) comes out unchanged. */
  lemma RewriteKeepsAbsolute(html: string)
    requires forall p, a :: Matches(html, p, a) ==> Absolute(a.value)
    ensures RewriteLinks(html) == html
  {
    ScanMatches(html, 0);
    SubstitutedAbsolute(Scan(html, 0));
    ScanRoundTrip(html, 0);
  }

  /** The text of any groups the pattern can capture is a match of them. */
  lemma TextMatches(a: Attribute)
    requires Groups(a)
    ensures Matches(AttributeText(a), 0, a)
  {
    var s := AttributeText(a);
    var n := |a.name|;
    assert s[0..n] == a.name;
    assert s[n + 2..Width(a)] == a.value;
  }

  /** A match that makes up the whole text is replaced by the callback's result. */
  lemma RewriteOneAttribute(a: Attribute)
    requires Groups(a)
    ensures RewriteLinks(AttributeText(a)) == Replacement(a)
  {
    ScanWhole(a);
    SubstitutedOne(a);
  }

  /** The scan of a match that makes up the whole text finds that match alone. */
  lemma ScanWhole(a: Attribute)
    requires Groups(a)
    ensures Scan(AttributeText(a), 0) == [Replaced(a)]
  {
    var s := AttributeText(a);
    TextMatches(a);
    MatchAtComplete(s, 0, a);
    assert |s| == 0 + PieceWidth(PieceAt(s, 0));
    ScanStep(s, 0);
    ScanEnd(s);
  }

  lemma SubstitutedOne(a: Attribute)
    ensures Substituted([Replaced(a)]) == Replacement(a)
  {
    assert [Replaced(a)][1..] == [];
    assert Replacement(a) + "" == Replacement(a);
  }

  /** The callback moves a relative value made of plain segments, with or without a
      leading `/`, under `assets/`: the match `src="/img/a.png` (which stops before the
      closing quote) becomes `src="assets/img/a.png`. `RewriteQuoted` puts it in context. */
  lemma ReplacementPlainValue(a: Attribute, w: string, rooted: bool)
    requires !Absolute(a.value) && PlainSegments(w)
    requires a.value == if rooted then "/" + w else w
    ensures Replacement(a) == AttributeText(Attribute(a.name, a.quote, AssetsDirectory + "/" + w))
  {
    JoinPlainValue(AssetsDirectory, w, rooted);
  }

  const HttpLookalike: string := "httpdocs/x"

  /** `href='httpdocs/x'` is kept as it is: it starts with `http`. */
  lemma RewriteHttpLookalikeExample()
    ensures RewriteLinks(AttributeText(Attribute(Href, '\'', HttpLookalike))) ==
            AttributeText(Attribute(Href, '\'', HttpLookalike))
  {
    RewriteOneAttribute(Attribute(Href, '\'', HttpLookalike));
    assert StartsWith(HttpLookalike, HttpPrefix);
  }

  /** An empty value never matches (the class needs one character), so `src=""` and
      `href=''` are kept as they are. */
  lemma EmptyValueUnchanged(name: string, q: char)
    requires (name == Href || name == Src) && IsQuote(q)
    ensures RewriteLinks(name + "=" + [q, q]) == name + "=" + [q, q]
  {
    var s := name + "=" + [q, q];
    assert forall k :: |name| + 1 <= k < |s| ==> IsQuote(s[k]);
    forall p, a ensures !Matches(s, p, a) {
      if Groups(a) && 0 <= p && p + Width(a) <= |s| {
        var i := p + |a.name| + 2;
        assert IsQuote(s[i]) && !IsQuote(a.value[0]);
      }
    }
    RewriteKeepsAbsolute(s);
  }

  /** A run of pieces copying `x`, one character each. */
  function Copies(x: string): (r: seq<Piece>)
    ensures |r| == |x| && forall k :: 0 <= k < |x| ==> r[k] == Copied(x[k])
  {
    if x == [] then [] else [Copied(x[0])] + Copies(x[1..])
  }

  /** Positions where no name starts are copied one character at a time. */
  lemma {:induction false} ScanCopies(s: string, p: nat, n: nat)
    requires p <= n <= |s| && forall q :: p <= q < n ==> NameLength(s, q) == 0
    ensures Scan(s, p) == Copies(s[p..n]) + Scan(s, n)
    decreases n - p
  {
    if p < n {
      ScanStep(s, p);
      PieceAtNoName(s, p);
      ScanCopies(s, p + 1, n);
      PrependCopied(s, p, n, Scan(s, p), Scan(s, p + 1), Scan(s, n));
    }
  }

  /** Where no name starts, the piece is the character there. */
  lemma PieceAtNoName(s: string, p: nat)
    requires p < |s| && NameLength(s, p) == 0
    ensures PieceAt(s, p) == Copied(s[p])
  {
  }

  /** The copy of `s[p]` in front of the copies of `s[p + 1..n]`. */
  lemma PrependCopied(s: string, p: nat, n: nat, whole: seq<Piece>, rest: seq<Piece>, tail: seq<Piece>)
    requires p < n <= |s|
    requires whole == [Copied(s[p])] + rest && rest == Copies(s[p + 1..n]) + tail
    ensures whole == Copies(s[p..n]) + tail
  {
    var x := s[p..n];
    assert x[0] == s[p] && x[1..] == s[p + 1..n];
  }

  /** Copied characters come out as they went in. */
  lemma {:induction false} SubstitutedCopies(x: string, rest: seq<Piece>)
    ensures Substituted(Copies(x) + rest) == x + Substituted(rest)
  {
    if x != [] {
      var ps := Copies(x) + rest;
      assert ps[0] == Copied(x[0]) && ps[1..] == Copies(x[1..]) + rest;
      SubstitutedCopies(x[1..], rest);
      assert x == [x[0]] + x[1..];
    } else {
      assert Copies(x) + rest == rest;
    }
  }

  /** The name is not anchored: after text that cannot start `href` or `src` (such as
      `data-`), a match is rewritten all the same, so `data-src="x"` gets `assets/x`. */
  lemma RewriteUnanchored(pre: string, a: Attribute)
    requires Groups(a) && 'h' !in pre && 's' !in pre
    ensures RewriteLinks(pre + AttributeText(a)) == pre + Replacement(a)
  {
    var s := pre + AttributeText(a);
    NoNameIn(pre, AttributeText(a));
    ScanCopies(s, 0, |pre|);
    assert s[0..|pre|] == pre;
    MatchesAfter(pre, a);
    ScanLast(s, |pre|, a);
    SubstitutedCopies(pre, [Replaced(a)]);
    SubstitutedOne(a);
  }

  /** A relative match inside other text: the match is replaced, and the text around it,
      from the closing quote on, is copied as it was. With `pre` = `<img ` and `post` =
      `">`, `<img src="/img/a.png">` becomes `<img src="assets/img/a.png">`. */
  lemma RewriteQuoted(pre: string, a: Attribute, post: string)
    requires Groups(a) && 'h' !in pre && 's' !in pre && 'h' !in post && 's' !in post
    requires post != [] ==> IsQuote(post[0])
    ensures RewriteLinks(pre + AttributeText(a) + post) == pre + Replacement(a) + post
  {
    var t := pre + AttributeText(a);
    var s := t + post;
    assert s == pre + (AttributeText(a) + post);
    CopiedFront(s, pre, AttributeText(a) + post);
    MatchedPiece(s, t, pre, a, post);
    CopiedBack(s, t, post);
    QuotedPieces(pre, a, post, Scan(s, 0), Scan(s, |pre|), Scan(s, |t|));
  }

  /** Text without an `h` or an `s` at the front of `s` is copied. */
  lemma CopiedFront(s: string, pre: string, rest: string)
    requires s == pre + rest && 'h' !in pre && 's' !in pre
    ensures Scan(s, 0) == Copies(pre) + Scan(s, |pre|)
  {
    NoNameIn(pre, rest);
    ScanCopies(s, 0, |pre|);
    assert s[0..|pre|] == pre;
  }

  /** Text without an `h` or an `s` at the end of `s` is copied to the end. */
  lemma CopiedBack(s: string, front: string, post: string)
    requires s == front + post && 'h' !in post && 's' !in post
    ensures Scan(s, |front|) == Copies(post) + []
  {
    forall q | |front| <= q < |s| ensures NameLength(s, q) == 0 {
      assert s[q] == post[q - |front|];
    }
    ScanCopies(s, |front|, |s|);
    assert s[|front|..|s|] == post;
    ScanEnd(s);
  }

  /** A match between other text and a closing quote is the piece where it starts. */
  lemma MatchedPiece(s: string, t: string, pre: string, a: Attribute, post: string)
    requires t == pre + AttributeText(a) && s == t + post
    requires Groups(a) && (post != [] ==> IsQuote(post[0]))
    ensures Scan(s, |pre|) == [Replaced(a)] + Scan(s, |t|)
  {
    assert |t| == |pre| + Width(a) && |t| <= |s|;
    MatchAtBetween(s, pre, a, post);
    ScanAtMatch(s, |pre|, a, |t|);
  }

  /** The attempt where a match between other text and a closing quote starts finds it. */
  lemma MatchAtBetween(s: string, pre: string, a: Attribute, post: string)
    requires s == pre + AttributeText(a) + post
    requires Groups(a) && (post != [] ==> IsQuote(post[0]))
    ensures |pre| <= |s| && MatchAt(s, |pre|) == Some(a)
  {
    MatchesBetween(pre, a, post);
    MatchAtComplete(s, |pre|, a);
  }

  /** What the attempt at `p` finds is the piece there, and the scan resumes where it
      ends. */
  lemma ScanAtMatch(s: string, p: nat, a: Attribute, e: nat)
    requires p <= |s| && MatchAt(s, p) == Some(a) && e == p + Width(a)
    ensures e <= |s| && Scan(s, p) == [Replaced(a)] + Scan(s, e)
  {
    ScanStep(s, p);
  }

  /** The text of a match, between other text and a closing quote, is a match there. */
  lemma MatchesBetween(pre: string, a: Attribute, post: string)
    requires Groups(a) && (post != [] ==> IsQuote(post[0]))
    ensures Matches(pre + AttributeText(a) + post, |pre|, a)
  {
    var t := pre + AttributeText(a);
    var s := t + post;
    var n, m, e := |pre|, |a.name|, |pre| + Width(a);
    MatchesAfter(pre, a);
    assert s[..|t|] == t;
    assert s[n..n + m] == t[n..n + m];
    assert s[n + m + 2..e] == t[n + m + 2..e];
    if e < |s| {
      assert s[e] == post[0];
    }
  }

  /** The pieces of a scan that copies `pre`, replaces `a`, then copies `post`, put back
      together. */
  lemma QuotedPieces(pre: string, a: Attribute, post: string,
                     whole: seq<Piece>, middle: seq<Piece>, tail: seq<Piece>)
    requires whole == Copies(pre) + middle
    requires middle == [Replaced(a)] + tail
    requires tail == Copies(post) + []
    ensures Substituted(whole) == pre + Replacement(a) + post
  {
    SubstitutedCopies(pre, middle);
    assert middle[0] == Replaced(a) && middle[1..] == tail;
    SubstitutedCopies(post, []);
  }

  /** No name starts inside text without an `h` or an `s`. */
  lemma NoNameIn(pre: string, t: string)
    requires 'h' !in pre && 's' !in pre
    ensures forall q :: 0 <= q < |pre| ==> NameLength(pre + t, q) == 0
  {
    forall q | 0 <= q < |pre| ensures NameLength(pre + t, q) == 0 {
      assert (pre + t)[q] == pre[q];
    }
  }

  /** The text of a match, placed after other text, is a match there. */
  lemma MatchesAfter(pre: string, a: Attribute)
    requires Groups(a)
    ensures Matches(pre + AttributeText(a), |pre|, a)
  {
    var t := AttributeText(a);
    var s := pre + t;
    var n, m := |pre|, |a.name|;
    TextMatches(a);
    assert s[n..] == t;
    assert s[n..n + m] == t[0..m];
    assert s[n + m + 2..n + Width(a)] == t[m + 2..Width(a)];
  }

  /** A match that ends the text is the last piece of the scan. */
  lemma ScanLast(s: string, p: nat, a: Attribute)
    requires Matches(s, p, a) && p + Width(a) == |s|
    ensures Scan(s, p) == [Replaced(a)]
  {
    MatchAtComplete(s, p, a);
    ScanStep(s, p);
    ScanEnd(s);
  }

  // ---------------------------------------------------------------------------
  // The local name of an asset (line 61)

  const QueryMark: char := '?'

  /** `assetUrl.replace(url, '').split('?')[0]`. */
  function AssetName(assetUrl: string, url: string): string {
    Split(ReplaceFirst(assetUrl, url, ""), QueryMark)[0]
  }

  /** The name is what is left of the URL, up to its first `?`; it never holds a `?`. */
  lemma AssetNameSpec(assetUrl: string, url: string)
    ensures var left := ReplaceFirst(assetUrl, url, "");
            var r := AssetName(assetUrl, url);
            && QueryMark !in r
            && StartsWith(left, r)
            && (|r| < |left| ==> left[|r|] == QueryMark)
  {
    SplitSpec(ReplaceFirst(assetUrl, url, ""), QueryMark);
  }

  /** An asset under the page's URL is named by the rest of its URL, up to the first `?`. */
  lemma AssetNameUnderPage(url: string, rest: string)
    ensures AssetName(url + rest, url) == Split(rest, QueryMark)[0]
  {
    ReplaceFirstAtStart(url, rest, "");
    assert "" + rest == rest;
  }

  /** An asset whose URL does not contain the page's URL keeps its whole URL, up to the
      first `?`. */
  lemma AssetNameElsewhere(assetUrl: string, url: string)
    requires forall j :: !OccursAt(assetUrl, url, j)
    ensures AssetName(assetUrl, url) == Split(assetUrl, QueryMark)[0]
  {
    ReplaceFirstAbsent(assetUrl, url, "");
  }

  /** Only the first occurrence of the page's URL is removed. */
  lemma AssetNameFirstOnly(url: string, mid: string, rest: string)
    ensures AssetName(url + mid + url + rest, url) == Split(mid + url + rest, QueryMark)[0]
  {
    assert url + mid + url + rest == url + (mid + url + rest);
    AssetNameUnderPage(url, mid + url + rest);
  }

  // ---------------------------------------------------------------------------
  // The clone (lines 5-71)

  const IndexFile: string := "index.html"

  /** One listed asset: its `href || src`, and whether `goto` gave a response whose
      `buffer()` and the `writeFileSync` of it succeeded. */
  datatype AssetDownload = AssetDownload(url: string, saved: bool)

  /** What the browser and the file system do during one clone. */
  datatype SiteVisit = SiteVisit(
    loaded: bool,                          // goto, the scrolling and `content()` succeeded
    html: string,                          // `page.content()`
    assetsDirReady: bool,                  // the directory existed or `mkdirSync` succeeded
    htmlWritten: bool,                     // `writeFileSync` of index.html succeeded
    assets: Option<seq<AssetDownload>>)    // the asset listing, None if its evaluation threw

  /** Why the try block ended early, by where it threw. */
  datatype CloneFailure =
    | PageFailed                     // lines 10-30
    | AssetsDirFailed(path: string)  // line 43
    | HtmlFailed(path: string)       // line 47
    | AssetListFailed                // lines 50-56
    | AssetFailed(url: string)       // lines 59-62: no per-asset try

  /** The effects of a clone, in the order they happen. */
  datatype CloneEvent =
    | HtmlSaved(path: string, content: string) // line 47
    | AssetSaved(path: string)                 // line 62
    | Cloned                                   // line 65
    | CloneFailed(failure: CloneFailure)       // the catch, line 67
    | BrowserClosed                            // the finally block, line 69

  function AssetsDir(outputDir: string): string {
    PathJoin([outputDir, AssetsDirectory])
  }

  function AssetPath(assetsDir: string, assetUrl: string, url: string): string {
    PathJoin([assetsDir, AssetName(assetUrl, url)])
  }

  /** The `for...of` loop: each asset saved in turn, until one fails; its failure ends the
      try block, and reaching the end logs the success. */
  function AssetEvents(url: string, assetsDir: string, assets: seq<AssetDownload>): seq<CloneEvent> {
    if assets == [] then [Cloned]
    else if !assets[0].saved then [CloneFailed(AssetFailed(assets[0].url))]
    else [AssetSaved(AssetPath(assetsDir, assets[0].url, url))] + AssetEvents(url, assetsDir, assets[1..])
  }

  /** The try block: the page, the rewritten HTML, the directory, index.html, then the
      assets. */
  function CloneBody(url: string, outputDir: string, v: SiteVisit): seq<CloneEvent> {
    var assetsDir := AssetsDir(outputDir);
    if !v.loaded then [CloneFailed(PageFailed)]
    else if !v.assetsDirReady then [CloneFailed(AssetsDirFailed(assetsDir))]
    else if !v.htmlWritten then [CloneFailed(HtmlFailed(PathJoin([outputDir, IndexFile])))]
    else
      [HtmlSaved(PathJoin([outputDir, IndexFile]), RewriteLinks(v.html))] +
      match v.assets
      case None => [CloneFailed(AssetListFailed)]
      case Some(assets) => AssetEvents(url, assetsDir, assets)
  }

  /** `cloneWebsite(url, outputDir)`, once the browser and its page are open. */
  function CloneTrace(url: string, outputDir: string, v: SiteVisit): seq<CloneEvent> {
    CloneBody(url, outputDir, v) + [BrowserClosed]
  }

  /** The first asset that could not be saved, if any. */
  function FirstUnsaved(assets: seq<AssetDownload>): (r: Option<nat>)
    ensures r.Some? ==> r.value < |assets| && !assets[r.value].saved
    ensures r.Some? ==> forall i :: 0 <= i < r.value ==> assets[i].saved
    ensures r.None? ==> forall i :: 0 <= i < |assets| ==> assets[i].saved
  {
    if assets == [] then None
    else if !assets[0].saved then Some(0)
    else match FirstUnsaved(assets[1..])
      case None => None
      case Some(i) => Some(i + 1)
  }

  /** One save event per asset, in order. */
  function SavedEvents(url: string, assetsDir: string, assets: seq<AssetDownload>): (r: seq<CloneEvent>)
    ensures |r| == |assets| && forall k :: 0 <= k < |r| ==> r[k].AssetSaved?
  {
    if assets == [] then []
    else [AssetSaved(AssetPath(assetsDir, assets[0].url, url))] + SavedEvents(url, assetsDir, assets[1..])
  }

  /** The `k`-th save event writes the `k`-th asset under its name. */
  lemma {:induction false} SavedEventsSpec(url: string, assetsDir: string, assets: seq<AssetDownload>, k: nat)
    requires k < |assets|
    ensures SavedEvents(url, assetsDir, assets)[k] == AssetSaved(AssetPath(assetsDir, assets[k].url, url))
    decreases k
  {
    if k > 0 {
      SavedEventsSpec(url, assetsDir, assets[1..], k - 1);
    }
  }

  /** The assets before the first failure are saved in order; that failure ends the loop,
      and without one every asset is saved and the success is logged. */
  lemma AssetEventsSpec(url: string, assetsDir: string, assets: seq<AssetDownload>)
    ensures match FirstUnsaved(assets)
            case Some(n) => AssetEvents(url, assetsDir, assets) ==
                              SavedEvents(url, assetsDir, assets[..n]) + [CloneFailed(AssetFailed(assets[n].url))]
            case None => AssetEvents(url, assetsDir, assets) == SavedEvents(url, assetsDir, assets) + [Cloned]
  {
    match FirstUnsaved(assets)
    case Some(n) =>
      SavedPrefix(url, assetsDir, assets, n);
      AssetStep(url, assetsDir, assets, n);
    case None =>
      SavedPrefix(url, assetsDir, assets, |assets|);
      assert assets[..|assets|] == assets;
      assert assets[|assets|..] == [];
  }

  /** Saved assets at the front of the list produce their save events, then the loop goes
      on with the rest. */
  lemma {:induction false} SavedPrefix(url: string, assetsDir: string, assets: seq<AssetDownload>, n: nat)
    requires n <= |assets| && forall i :: 0 <= i < n ==> assets[i].saved
    ensures AssetEvents(url, assetsDir, assets) ==
              SavedEvents(url, assetsDir, assets[..n]) + AssetEvents(url, assetsDir, assets[n..])
    decreases n
  {
    if n == 0 {
      assert assets[..0] == [] && assets[0..] == assets;
    } else {
      var tail := assets[1..];
      SavedPrefix(url, assetsDir, tail, n - 1);
      assert tail[n - 1..] == assets[n..];
      AssetStep(url, assetsDir, assets, 0);
      assert assets[0..] == assets;
      SavedEventsCons(url, assetsDir, assets, n);
      Regroup(AssetEvents(url, assetsDir, assets), [AssetSaved(AssetPath(assetsDir, assets[0].url, url))],
              AssetEvents(url, assetsDir, tail), SavedEvents(url, assetsDir, tail[..n - 1]),
              AssetEvents(url, assetsDir, assets[n..]), SavedEvents(url, assetsDir, assets[..n]));
    }
  }

  /** The saved events of a prefix that starts with a saved asset. */
  lemma SavedEventsCons(url: string, assetsDir: string, assets: seq<AssetDownload>, n: nat)
    requires 0 < n <= |assets|
    ensures SavedEvents(url, assetsDir, assets[..n]) ==
              [AssetSaved(AssetPath(assetsDir, assets[0].url, url))] + SavedEvents(url, assetsDir, assets[1..][..n - 1])
  {
    assert assets[..n][0] == assets[0];
    assert assets[..n][1..] == assets[1..][..n - 1];
  }

  /** `head + (body + suffix)` regrouped as `(head + body) + suffix`. */
  lemma Regroup(whole: seq<CloneEvent>, head: seq<CloneEvent>, rest: seq<CloneEvent>,
                body: seq<CloneEvent>, suffix: seq<CloneEvent>, prefix: seq<CloneEvent>)
    requires whole == head + rest && rest == body + suffix && prefix == head + body
    ensures whole == prefix + suffix
  {
  }

  /** The success is logged exactly when every step succeeded and every asset was saved. */
  lemma ClonedExactly(url: string, outputDir: string, v: SiteVisit)
    ensures Cloned in CloneTrace(url, outputDir, v) <==>
              v.loaded && v.assetsDirReady && v.htmlWritten && v.assets.Some? &&
              forall i :: 0 <= i < |v.assets.value| ==> v.assets.value[i].saved
  {
    if v.loaded && v.assetsDirReady && v.htmlWritten && v.assets.Some? {
      var assets := v.assets.value;
      var assetsDir := AssetsDir(outputDir);
      var html := HtmlSaved(PathJoin([outputDir, IndexFile]), RewriteLinks(v.html));
      ClonedInAssets(url, assetsDir, assets);
      ClonedBetween(CloneTrace(url, outputDir, v), html, AssetEvents(url, assetsDir, assets));
    }
  }

  /** The loop logs the success exactly when every asset was saved. */
  lemma {:induction false} ClonedInAssets(url: string, assetsDir: string, assets: seq<AssetDownload>)
    ensures Cloned in AssetEvents(url, assetsDir, assets) <==> forall i :: 0 <= i < |assets| ==> assets[i].saved
  {
    if assets != [] && assets[0].saved {
      ClonedInAssets(url, assetsDir, assets[1..]);
      assert forall i :: 1 <= i < |assets| ==> assets[i] == assets[1..][i - 1];
    }
  }

  /** Between the HTML's write and the browser's closing, only the loop's events. */
  lemma ClonedBetween(t: seq<CloneEvent>, html: CloneEvent, loop: seq<CloneEvent>)
    requires html.HtmlSaved? && t == [html] + loop + [BrowserClosed]
    ensures Cloned in t <==> Cloned in loop
  {
    assert t[1..|t| - 1] == loop;
  }

  /** index.html is written before any asset is touched: whenever an asset was saved or
      failed, the trace starts with the HTML's write. */
  lemma HtmlBeforeAssets(url: string, outputDir: string, v: SiteVisit)
    ensures var t := CloneTrace(url, outputDir, v);
            (exists k :: 0 <= k < |t| && (t[k].AssetSaved? || (t[k].CloneFailed? && t[k].failure.AssetFailed?))) ==>
              t[0] == HtmlSaved(PathJoin([outputDir, IndexFile]), RewriteLinks(v.html))
  {
  }

  /** The browser is closed exactly once, as the last thing the clone does. */
  lemma CloneClosesBrowserOnce(url: string, outputDir: string, v: SiteVisit)
    ensures var t := CloneTrace(url, outputDir, v);
            t != [] && t[|t| - 1] == BrowserClosed && forall k :: 0 <= k < |t| - 1 ==> t[k] != BrowserClosed
  {
    var body := CloneBody(url, outputDir, v);
    var t := CloneTrace(url, outputDir, v);
    BodyKeepsBrowserOpen(url, outputDir, v);
    forall k | 0 <= k < |t| - 1 ensures t[k] != BrowserClosed {
      assert t[k] == body[k];
    }
  }

  /** Nothing in the try block closes the browser. */
  lemma BodyKeepsBrowserOpen(url: string, outputDir: string, v: SiteVisit)
    ensures BrowserClosed !in CloneBody(url, outputDir, v)
  {
    if v.loaded && v.assetsDirReady && v.htmlWritten && v.assets.Some? {
      var assets := v.assets.value;
      var assetsDir := AssetsDir(outputDir);
      AssetEventsSpec(url, assetsDir, assets);
      var n := if FirstUnsaved(assets).Some? then FirstUnsaved(assets).value else |assets|;
      assert BrowserClosed !in SavedEvents(url, assetsDir, assets[..n]);
    }
  }

  /** One step of the loop from asset `i` on. */
  lemma AssetStep(url: string, assetsDir: string, assets: seq<AssetDownload>, i: nat)
    requires i < |assets|
    ensures AssetEvents(url, assetsDir, assets[i..]) ==
              if assets[i].saved then [AssetSaved(AssetPath(assetsDir, assets[i].url, url))] + AssetEvents(url, assetsDir, assets[i + 1..])
              else [CloneFailed(AssetFailed(assets[i].url))]
  {
    assert assets[i..][0] == assets[i];
    assert assets[i..][1..] == assets[i + 1..];
  }

  /** Moving one event from the front of what is left onto what was done. */
  lemma Advance(done: seq<CloneEvent>, e: CloneEvent, rest: seq<CloneEvent>)
    ensures done + ([e] + rest) == (done + [e]) + rest
  {
  }

  /** The download loop of lines 58-63 and the success log of line 65. */
  method DownloadAssets(url: string, assetsDir: string, assets: seq<AssetDownload>) returns (events: seq<CloneEvent>)
    ensures events == AssetEvents(url, assetsDir, assets)
  {
    events := [];
    for i := 0 to |assets|
      invariant events + AssetEvents(url, assetsDir, assets[i..]) == AssetEvents(url, assetsDir, assets)
    {
      AssetStep(url, assetsDir, assets, i);
      var asset := assets[i];
      if !asset.saved {
        return events + [CloneFailed(AssetFailed(asset.url))];
      }
      var assetPath := AssetName(asset.url, url);
      Advance(events, AssetSaved(PathJoin([assetsDir, assetPath])), AssetEvents(url, assetsDir, assets[i + 1..]));
      events := events + [AssetSaved(PathJoin([assetsDir, assetPath]))];
    }
    assert assets[|assets|..] == [];
    events := events + [Cloned];
  }

  /** `cloneWebsite`: the try block with its catch, and the browser closed in `finally`. */
  method CloneWebsite(url: string, outputDir: string, v: SiteVisit) returns (trace: seq<CloneEvent>)
    ensures trace == CloneTrace(url, outputDir, v)
  {
    var assetsDir := PathJoin([outputDir, AssetsDirectory]);
    var indexPath := PathJoin([outputDir, IndexFile]);
    if !v.loaded {
      trace := [CloneFailed(PageFailed)];
    } else {
      var html := RewriteLinks(v.html);
      if !v.assetsDirReady {
        trace := [CloneFailed(AssetsDirFailed(assetsDir))];
      } else if !v.htmlWritten {
        trace := [CloneFailed(HtmlFailed(indexPath))];
      } else {
        trace := [HtmlSaved(indexPath, html)];
        if v.assets.None? {
          trace := trace + [CloneFailed(AssetListFailed)];
        } else {
          var events := DownloadAssets(url, assetsDir, v.assets.value);
          trace := trace + events;
        }
      }
    }
    trace := trace + [BrowserClosed];
  }
}
