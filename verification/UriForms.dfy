/** The texts that stand for a name: schemes, authorities, white space, escapes (name.cpp, string-helper.cpp). */
module UriForms {
  import opened Wrappers
  import opened Components
  import opened Names
  import opened NameUri

  // ----- white space -----

  predicate Blank(s: Text) {
    forall i :: 0 <= i < |s| ==> IsSpace(s[i])
  }

  /** Nothing to trim. */
  predicate Solid(s: Text) {
    |s| > 0 && !IsSpace(s[0]) && !IsSpace(s[|s| - 1])
  }

  lemma {:induction false} TrimRightOf(s: Text, after: Text)
    requires |s| > 0 && !IsSpace(s[|s| - 1]) && Blank(after)
    ensures TrimRight(s + after) == s
  {
    if |after| == 0 {
      assert s + after == s;
    } else {
      assert (s + after)[..|s + after| - 1] == s + after[..|after| - 1];
      TrimRightOf(s, after[..|after| - 1]);
    }
  }

  lemma {:induction false} TrimLeftOf(before: Text, s: Text)
    requires |s| > 0 && !IsSpace(s[0]) && Blank(before)
    ensures TrimLeft(before + s) == s
  {
    if |before| == 0 {
      assert before + s == s;
    } else {
      assert (before + s)[1..] == before[1..] + s;
      TrimLeftOf(before[1..], s);
    }
  }

  /** trim removes exactly the white space around a text. */
  lemma TrimAround(before: Text, s: Text, after: Text)
    requires Blank(before) && Blank(after) && Solid(s)
    ensures Trim(before + s + after) == s
  {
    TrimRightOf(before + s, after);
    TrimLeftOf(before, s);
  }

  // ----- scheme and authority -----

  predicate Without(s: Text, c: byte) {
    forall i :: 0 <= i < |s| ==> s[i] != c
  }

  lemma SchemeStripped(scheme: Text, rest: Text)
    requires Without(scheme, COLON) && Without(scheme, SLASH)
    ensures StripScheme(scheme + [COLON] + rest) == Trim(rest)
  {
    var s := scheme + [COLON] + rest;
    FindUnique(s, COLON, 0, |scheme|);
    assert Find(s, SLASH, 0) > |scheme|;
    assert s[|scheme| + 1..] == rest;
  }

  lemma NoScheme(s: Text)
    requires |s| > 0 && s[0] == SLASH
    ensures StripScheme(s) == s
  {
    FindUnique(s, SLASH, 0, 0);
  }

  lemma AuthorityStripped(authority: Text, rest: Text)
    requires Without(authority, SLASH) && (|rest| > 0 ==> rest[0] == SLASH)
    ensures StripAuthority([SLASH, SLASH] + authority + rest) == if |rest| == 0 then None else Some(Trim(rest[1..]))
  {
    var s := [SLASH, SLASH] + authority + rest;
    var end := 2 + |authority|;
    FindUnique(s, SLASH, 2, end);
    if |rest| > 0 {
      assert s[end + 1..] == rest[1..];
    }
  }

  /** What follows the first slash of a printed name. */
  lemma PrintedParts(n: Name)
    requires forall i :: 0 <= i < |n| ==> IsValid(n[i])
    ensures var t := Printed(n);
            Solid(t) && t[0] == SLASH && (|t| > 1 ==> t[1] != SLASH) && Trim(t[1..]) == t[1..] &&
            ParseFrom(FromEscapedString, t[1..], 0) == Ok(n)
  {
    if |n| > 0 {
      var pieces := Uris(n);
      BodyParses(n);
      JoinedBody(pieces);
      JoinedStripped(pieces);
      JoinedChars(pieces);
      var t := Join(pieces);
      assert PlainText(pieces[0]) && t[1] == t[1..][0] == pieces[0][0];
      TrimNothing(t[1..]);
    }
  }

  /** A scheme up to its colon, an authority with its two slashes, or nothing. */
  function SchemePart(scheme: Option<Text>, between: Text): Text {
    if scheme.Some? then scheme.value + [COLON] + between else []
  }

  function AuthorityPart(authority: Option<Text>): Text {
    if authority.Some? then [SLASH, SLASH] + authority.value else []
  }

  predicate SchemeOk(scheme: Option<Text>) {
    scheme.Some? ==>
      var s := scheme.value;
      Without(s, COLON) && Without(s, SLASH) && (|s| > 0 ==> !IsSpace(s[0]))
  }

  predicate AuthorityOk(authority: Option<Text>) {
    authority.Some? ==> Without(authority.value, SLASH)
  }

  /** A text without a scheme of its own, with a scheme and white space before it and white space after it. */
  lemma SchemeAndSpace(before: Text, scheme: Option<Text>, between: Text, s: Text, after: Text)
    requires Blank(before) && Blank(between) && Blank(after) && SchemeOk(scheme) && Solid(s) && StripScheme(s) == s
    ensures ParseName(before + (SchemePart(scheme, between) + s) + after) == ParseName(s)
  {
    TrimNothing(s);
    var part := SchemePart(scheme, between);
    assert Solid(part + s);
    TrimAround(before, part + s, after);
    if scheme.Some? {
      assert part + s == scheme.value + [COLON] + (between + s);
      SchemeStripped(scheme.value, between + s);
      assert between + s + [] == between + s;
      TrimAround(between, s, []);
    } else {
      assert part + s == s;
    }
  }

  lemma AuthorityParses(authority: Option<Text>, n: Name)
    requires AuthorityOk(authority) && forall i :: 0 <= i < |n| ==> IsValid(n[i])
    ensures var s := AuthorityPart(authority) + Printed(n);
            Solid(s) && s[0] == SLASH && Trim(s) == s && StripScheme(s) == s && ParseName(s) == Ok(n)
  {
    var t := Printed(n);
    var s := AuthorityPart(authority) + t;
    PrintedParts(n);
    NoScheme(s);
    TrimNothing(s);
    if authority.Some? {
      AuthorityStripped(authority.value, t);
    } else {
      assert s == t;
      NameRoundTrip(n);
    }
  }

  /**
   * A printed name is parsed as that name whatever scheme and authority stand before it, with white space before and
   * after the whole and after the scheme.
   */
  lemma FullUri(before: Text, scheme: Option<Text>, between: Text, authority: Option<Text>, n: Name, after: Text)
    requires Blank(before) && Blank(between) && Blank(after) && SchemeOk(scheme) && AuthorityOk(authority)
    requires forall i :: 0 <= i < |n| ==> IsValid(n[i])
    ensures ParseName(before + (SchemePart(scheme, between) + (AuthorityPart(authority) + Printed(n))) + after) == Ok(n)
  {
    AuthorityParses(authority, n);
    SchemeAndSpace(before, scheme, between, AuthorityPart(authority) + Printed(n), after);
  }

  /** An authority alone is the empty name. */
  lemma AuthorityAlone(before: Text, scheme: Option<Text>, between: Text, authority: Text, after: Text)
    requires Blank(before) && Blank(between) && Blank(after) && SchemeOk(scheme) && Without(authority, SLASH)
    requires |authority| > 0 ==> !IsSpace(authority[|authority| - 1])
    ensures ParseName(before + (SchemePart(scheme, between) + ([SLASH, SLASH] + authority)) + after) == Ok([])
  {
    var s := [SLASH, SLASH] + authority;
    NoScheme(s);
    TrimNothing(s);
    SchemeAndSpace(before, scheme, between, s, after);
    AuthorityStripped(authority, []);
    assert s + [] == s;
  }

  /** Without an authority the first slash may be missing. */
  lemma RelativeUri(before: Text, scheme: Option<Text>, between: Text, n: Name, after: Text)
    requires Blank(before) && Blank(between) && Blank(after) && SchemeOk(scheme)
    requires |n| > 0 && forall i :: 0 <= i < |n| ==> IsValid(n[i])
    ensures ParseName(before + (SchemePart(scheme, between) + Printed(n)[1..]) + after) == Ok(n)
  {
    var t := Printed(n);
    var s := t[1..];
    PrintedParts(n);
    PrintedRest(n);
    TrimNothing(s);
    SchemeAndSpace(before, scheme, between, s, after);
  }

  lemma PrintedRest(n: Name)
    requires |n| > 0 && forall i :: 0 <= i < |n| ==> IsValid(n[i])
    ensures var s := Printed(n)[1..]; Solid(s) && s[0] != SLASH && StripScheme(s) == s
  {
    var pieces, s := Uris(n), Printed(n)[1..];
    BodyParses(n);
    JoinedBody(pieces);
    JoinedChars(pieces);
    forall i | 0 <= i < |s|
      ensures s[i] != COLON
    {
      assert s[i] == Printed(n)[i + 1];
    }
    assert PlainText(pieces[0]) && s[0] == pieces[0][0] && s[|s| - 1] == Printed(n)[|s|];
  }

  // ----- splitting at slashes -----

  function Followed(first: Result<Component>, rest: Result<Name>): Result<Name> {
    if first.Err? then Err(first.error) else Prepend([first.value], rest)
  }

  /** The pieces one after the other; the first that is no component is the error. */
  function ParseEach(parse: Text -> Result<Component>, pieces: seq<Text>): Result<Name> {
    if |pieces| == 0 then Ok([]) else Followed(parse(pieces[0]), ParseEach(parse, pieces[1..]))
  }

  /** Empty pieces are parsed as well, but for one at the very end. */
  function Parsed(pieces: seq<Text>): seq<Text> {
    if |pieces| > 0 && pieces[|pieces| - 1] == [] then pieces[..|pieces| - 1] else pieces
  }

  lemma ParsedStep(pieces: seq<Text>)
    requires |pieces| > 1
    ensures Parsed(pieces) == [pieces[0]] + Parsed(pieces[1..])
  {
  }

  lemma FirstOf(parse: Text -> Result<Component>, piece: Text, rest: seq<Text>, all: seq<Text>, r: Result<Name>)
    requires all == [piece] + rest && r == Followed(parse(piece), ParseEach(parse, rest))
    ensures r == ParseEach(parse, all)
  {
    assert all[1..] == rest;
  }

  lemma PiecesApart(pieces: seq<Text>)
    requires |pieces| > 1 && forall i :: 0 <= i < |pieces| ==> NoSlash(pieces[i])
    ensures NoSlash(pieces[0]) && forall i :: 0 <= i < |pieces[1..]| ==> NoSlash(pieces[1..][i])
  {
  }

  /** One piece before another. */
  lemma NextPiece(s: Text, start: nat, pieces: seq<Text>)
    requires |pieces| > 1 && NoSlash(pieces[0]) && start <= |s| && s[start..] == Body(pieces)
    ensures var end := start + |pieces[0]|;
            end < |s| && Find(s, SLASH, start) == end && s[start..end] == pieces[0] && s[end + 1..] == Body(pieces[1..])
  {
    JoinedBody(pieces[1..]);
    PieceEnd(s, start, pieces[0], Join(pieces[1..]));
  }

  lemma SplitLast(parse: Text -> Result<Component>, s: Text, start: nat, pieces: seq<Text>)
    requires |pieces| == 1 && NoSlash(pieces[0]) && start <= |s| && s[start..] == Body(pieces)
    ensures ParseFrom(parse, s, start) == ParseEach(parse, Parsed(pieces))
  {
    var piece := pieces[0];
    assert pieces[1..] == [] && piece + [] == piece;
    PieceEnd(s, start, piece, []);
    if piece == [] {
      assert Parsed(pieces) == [];
    } else {
      assert ParseFrom(parse, s, start + |piece| + 1) == Ok([]);
    }
  }

  lemma SplitMore(parse: Text -> Result<Component>, s: Text, start: nat, piece: Text, more: seq<Text>, all: seq<Text>)
    requires start < |s| && s[start..Find(s, SLASH, start)] == piece && all == [piece] + more
    requires ParseFrom(parse, s, Find(s, SLASH, start) + 1) == ParseEach(parse, more)
    ensures ParseFrom(parse, s, start) == ParseEach(parse, all)
  {
    FirstOf(parse, piece, more, all, Followed(parse(piece), ParseEach(parse, more)));
  }

  /** A text is split at its slashes, whatever parses the pieces and whichever of them are empty or wrong. */
  lemma {:induction false} SplitAtSlashes(parse: Text -> Result<Component>, s: Text, start: nat, pieces: seq<Text>)
    requires |pieces| > 0 && (forall i :: 0 <= i < |pieces| ==> NoSlash(pieces[i]))
    requires start <= |s| && s[start..] == Body(pieces)
    ensures ParseFrom(parse, s, start) == ParseEach(parse, Parsed(pieces))
    decreases |pieces|
  {
    if |pieces| == 1 {
      SplitLast(parse, s, start, pieces);
    } else {
      PiecesApart(pieces);
      NextPiece(s, start, pieces);
      SplitAtSlashes(parse, s, start + |pieces[0]| + 1, pieces[1..]);
      ParsedStep(pieces);
      SplitMore(parse, s, start, pieces[0], Parsed(pieces[1..]), Parsed(pieces));
    }
  }

  // ----- escapes -----

  function Spelled(t: Text): string {
    seq(|t|, i requires 0 <= i < |t| => t[i] as char)
  }

  /** How the characters of a printed component are spelled, and which ones are trimmed. */
  lemma Spelling(x: byte)
    ensures var c := x as char;
            (Unreserved(x) <==> '0' <= c <= '9' || 'A' <= c <= 'Z' || 'a' <= c <= 'z' || c in {'+', '-', '.', '_'}) &&
            (FromHexChar(x) >= 0 <==> '0' <= c <= '9' || 'A' <= c <= 'F' || 'a' <= c <= 'f')
    ensures x < 10 ==> UpperDigit(x) as char == LowerDigit(x) as char == '0' + x as char
    ensures 10 <= x < 16 ==> UpperDigit(x) as char == 'A' + (x - 10) as char &&
                             LowerDigit(x) as char == 'a' + (x - 10) as char
    ensures IsSpace(x) <==> (x as char) in {' ', '\t', '\n', '\U{B}', '\U{C}', '\r'}
    ensures SLASH as char == '/' && COLON as char == ':' && PERCENT as char == '%' && DOT as char == '.'
    ensures Spelled(SHA256_DIGEST_URI_PREFIX) == "sha256digest="
  {
  }

  /** No percent sign starts a valid escape. */
  predicate NoEscape(s: Text) {
    forall i :: 0 <= i < |s| - 2 && s[i] == PERCENT ==> FromHexChar(s[i + 1]) < 0 || FromHexChar(s[i + 2]) < 0
  }

  /** Such a text is left as it is. */
  lemma {:induction false} InvalidEscapesStay(s: Text)
    requires NoEscape(s)
    ensures Unescape(s) == s
    decreases |s|
  {
    if |s| > 2 && s[0] == PERCENT {
      assert forall i :: 0 <= i < |s| - 3 ==> s[3..][i] == s[i + 3];
      InvalidEscapesStay(s[3..]);
    } else if |s| > 0 {
      assert forall i :: 0 <= i < |s| - 1 ==> s[1..][i] == s[i + 1];
      InvalidEscapesStay(s[1..]);
    }
  }

  /** An invalid escape is skipped as a whole: the second percent sign of "%%41" starts no escape. */
  lemma InvalidEscapeSkipped(x: byte, y: byte, rest: Text)
    requires FromHexChar(x) < 0 || FromHexChar(y) < 0
    ensures Unescape([PERCENT, x, y] + rest) == [PERCENT, x, y] + Unescape(rest)
    ensures Unescape([PERCENT, PERCENT, 52, 49]) == [PERCENT, PERCENT, 52, 49]
  {
    var s := [PERCENT, x, y] + rest;
    assert s[..3] == [PERCENT, x, y] && s[3..] == rest;
    var t: Text := [PERCENT, PERCENT, 52, 49];
    assert t[3..] == [49] && [49][1..] == [] && Unescape([49]) == [49];
    assert t[..3] + [49] == t;
  }

  // ----- special components -----

  /** Up to two dots are refused; of more, three go. */
  lemma DotsUri(t: Text)
    requires AllDots(t)
    ensures FromEscapedString(t) == if |t| <= 2 then Err(DotComponent) else Ok(Component(NAME_COMPONENT, t[3..]))
  {
    TrimNothing(t);
    UnescapeNothing(t);
    assert |t| > 0 ==> t[0] != SHA256_DIGEST_URI_PREFIX[0];
  }

  predicate AllHex(s: Text) {
    forall i :: 0 <= i < |s| ==> FromHexChar(s[i]) >= 0
  }

  /** Hexadecimal text of either case, two digits a byte; any other character is an error. */
  lemma {:induction false} HexMeaning(s: Text)
    requires |s| % 2 == 0
    ensures FromHex(s).Ok? <==> AllHex(s)
    ensures FromHex(s).Ok? ==>
              var v := FromHex(s).value;
              |v| * 2 == |s| &&
              forall i :: 0 <= i < |v| ==> v[i] == FromHexChar(s[2 * i]) * 16 + FromHexChar(s[2 * i + 1])
    ensures FromHex(s).Err? ==> FromHex(s).error == BadDigestUri
  {
    if |s| > 0 {
      HexMeaning(s[..|s| - 2]);
      assert AllHex(s) <==> AllHex(s[..|s| - 2]) && FromHexChar(s[|s| - 2]) >= 0 && FromHexChar(s[|s| - 1]) >= 0;
    }
  }

  /** A digest is 64 hexadecimal digits after its prefix; anything else there is an error. */
  lemma DigestUri(x: Text)
    requires |x| > 0 ==> !IsSpace(x[|x| - 1])
    ensures var r := FromEscapedString(SHA256_DIGEST_URI_PREFIX + x);
            if |x| == 2 * DIGEST_SIZE && AllHex(x) then
              r.Ok? && r.value.typ == IMPLICIT_DIGEST && |r.value.value| == DIGEST_SIZE &&
              forall i :: 0 <= i < DIGEST_SIZE ==>
                r.value.value[i] == FromHexChar(x[2 * i]) * 16 + FromHexChar(x[2 * i + 1])
            else r == Err(BadDigestUri)
  {
    var t := SHA256_DIGEST_URI_PREFIX + x;
    TrimNothing(t);
    assert t[|SHA256_DIGEST_URI_PREFIX|..] == x;
    if |x| == 2 * DIGEST_SIZE {
      HexMeaning(x);
    }
  }
}
