/** Names as URIs: the printer and the parser (name-component.cpp, name.cpp, string-helper.cpp). Text is bytes. */
module NameUri {
  import opened Wrappers
  import opened Components
  import opened Names

  type Text = seq<byte>

  const SLASH: byte := 47
  const COLON: byte := 58
  const PERCENT: byte := 37
  const DOT: byte := 46
  const SHA256_DIGEST_URI_PREFIX: Text := [115, 104, 97, 50, 53, 54, 100, 105, 103, 101, 115, 116, 61]

  // ----- hexadecimal -----

  function UpperDigit(d: nat): byte
    requires d < 16
  {
    if d < 10 then 48 + d else 55 + d
  }

  function LowerDigit(d: nat): byte
    requires d < 16
  {
    if d < 10 then 48 + d else 87 + d
  }

  /** fromHexChar; -1 if the character is no hexadecimal digit. */
  function FromHexChar(c: byte): (d: int)
    ensures -1 <= d < 16
  {
    if 48 <= c <= 57 then c - 48
    else if 65 <= c <= 70 then c - 55
    else if 97 <= c <= 102 then c - 87
    else -1
  }

  lemma HexDigits(d: nat)
    requires d < 16
    ensures FromHexChar(UpperDigit(d)) == d && FromHexChar(LowerDigit(d)) == d
  {
  }

  // ----- printing a component -----

  /** 0-9, A-Z, a-z, plus, minus, dot and underscore. */
  predicate Unreserved(x: byte) {
    48 <= x <= 57 || 65 <= x <= 90 || 97 <= x <= 122 || x == 43 || x == 45 || x == 46 || x == 95
  }

  predicate AllDots(v: Text) {
    forall i :: 0 <= i < |v| ==> v[i] == DOT
  }

  function EscapeByte(x: byte): Text {
    if Unreserved(x) then [x] else [PERCENT, UpperDigit(x / 16), UpperDigit(x % 16)]
  }

  function Escape(v: Text): Text {
    if |v| == 0 then [] else Escape(v[..|v| - 1]) + EscapeByte(v[|v| - 1])
  }

  function LowerHex(v: Text): Text {
    if |v| == 0 then [] else LowerHex(v[..|v| - 1]) + [LowerDigit(v[|v| - 1] / 16), LowerDigit(v[|v| - 1] % 16)]
  }

  function ComponentUri(c: Component): Text {
    if c.typ == IMPLICIT_DIGEST then SHA256_DIGEST_URI_PREFIX + LowerHex(c.value)
    else if AllDots(c.value) then [DOT, DOT, DOT] + c.value
    else Escape(c.value)
  }

  /** toUri: the loops over the value write to the stream. */
  method ToUri(c: Component) returns (result: Text)
    ensures result == ComponentUri(c)
  {
    if c.typ == IMPLICIT_DIGEST {
      result := SHA256_DIGEST_URI_PREFIX;
      var i := 0;
      while i < |c.value|
        invariant i <= |c.value| && result == SHA256_DIGEST_URI_PREFIX + LowerHex(c.value[..i])
      {
        assert c.value[..i + 1][..i] == c.value[..i];
        result := result + [LowerDigit(c.value[i] / 16), LowerDigit(c.value[i] % 16)];
        i := i + 1;
      }
      assert c.value[..i] == c.value;
      return;
    }
    var gotNonDot := false;
    var i := 0;
    while i < |c.value|
      invariant i <= |c.value| && !gotNonDot && AllDots(c.value[..i])
    {
      if c.value[i] != DOT {
        gotNonDot := true;
        break;
      }
      i := i + 1;
    }
    if !gotNonDot {
      assert c.value[..i] == c.value;
      result := [DOT, DOT, DOT] + seq(|c.value|, _ => DOT);
      assert seq(|c.value|, _ => DOT) == c.value;
    } else {
      result := EscapeAll(c.value);
    }
  }

  method EscapeAll(v: Text) returns (result: Text)
    ensures result == Escape(v)
  {
    result := [];
    var i := 0;
    while i < |v|
      invariant i <= |v| && result == Escape(v[..i])
    {
      assert v[..i + 1][..i] == v[..i];
      var x := v[i];
      if Unreserved(x) {
        result := result + [x];
      } else {
        result := result + [PERCENT];
        if x < 16 {
          result := result + [UpperDigit(0)];
          result := result + [UpperDigit(x)];
        } else {
          result := result + [UpperDigit(x / 16), UpperDigit(x % 16)];
        }
      }
      i := i + 1;
    }
    assert v[..i] == v;
  }

  // ----- parsing a component -----

  /** Two valid digits after a percent sign make one byte; otherwise the three characters stay. */
  function Unescape(s: Text): Text
    decreases |s|
  {
    if |s| == 0 then []
    else if s[0] == PERCENT && |s| > 2 then
      var hi, lo := FromHexChar(s[1]), FromHexChar(s[2]);
      (if hi < 0 || lo < 0 then s[..3] else [hi * 16 + lo]) + Unescape(s[3..])
    else [s[0]] + Unescape(s[1..])
  }

  lemma UnescapeStep(s: Text, i: nat)
    requires i < |s|
    ensures Unescape(s[i..]) ==
            if s[i] == PERCENT && i + 2 < |s| then
              var hi, lo := FromHexChar(s[i + 1]), FromHexChar(s[i + 2]);
              (if hi < 0 || lo < 0 then [s[i], s[i + 1], s[i + 2]] else [hi * 16 + lo]) + Unescape(s[i + 3..])
            else [s[i]] + Unescape(s[i + 1..])
  {
  }

  lemma Regroup(a: Text, b: Text, c: Text)
    ensures a + b + c == a + (b + c)
  {
  }

  method UnescapeLoop(str: Text) returns (result: Text)
    ensures result == Unescape(str)
  {
    result := [];
    var i := 0;
    assert str[0..] == str;
    while i < |str|
      invariant i <= |str| && Unescape(str) == result + Unescape(str[i..])
    {
      UnescapeStep(str, i);
      var piece: Text := [str[i]];
      var next := i + 1;
      if str[i] == PERCENT && i + 2 < |str| {
        var hi, lo := FromHexChar(str[i + 1]), FromHexChar(str[i + 2]);
        piece := if hi < 0 || lo < 0 then [str[i], str[i + 1], str[i + 2]] else [hi * 16 + lo];
        next := i + 3;
      }
      Regroup(result, piece, Unescape(str[next..]));
      result := result + piece;
      i := next;
    }
    assert result + Unescape([]) == result;
  }

  /** White space in the classic locale. */
  predicate IsSpace(c: byte) {
    9 <= c <= 13 || c == 32
  }

  function TrimLeft(s: Text): Text {
    if |s| > 0 && IsSpace(s[0]) then TrimLeft(s[1..]) else s
  }

  function TrimRight(s: Text): Text {
    if |s| > 0 && IsSpace(s[|s| - 1]) then TrimRight(s[..|s| - 1]) else s
  }

  function Trim(s: Text): (r: Text)
    ensures |r| <= |s|
  {
    TrimShrinks(s);
    TrimLeft(TrimRight(s))
  }

  lemma TrimShrinks(s: Text)
    ensures |TrimRight(s)| <= |s| && |TrimLeft(TrimRight(s))| <= |TrimRight(s)|
  {
    TrimRightShrinks(s);
    TrimLeftShrinks(TrimRight(s));
  }

  lemma {:induction false} TrimRightShrinks(s: Text)
    ensures |TrimRight(s)| <= |s|
  {
    if |s| > 0 && IsSpace(s[|s| - 1]) {
      TrimRightShrinks(s[..|s| - 1]);
    }
  }

  lemma {:induction false} TrimLeftShrinks(s: Text)
    ensures |TrimLeft(s)| <= |s|
  {
    if |s| > 0 && IsSpace(s[0]) {
      TrimLeftShrinks(s[1..]);
    }
  }

  /** fromHex, on an even number of characters. */
  function FromHex(s: Text): Result<Text> {
    if |s| < 2 then Ok([])
    else
      var hi, lo := FromHexChar(s[|s| - 2]), FromHexChar(s[|s| - 1]);
      match FromHex(s[..|s| - 2])
      case Err(e) => Err(e)
      case Ok(v) => if hi < 0 || lo < 0 then Err(BadDigestUri) else Ok(v + [hi * 16 + lo])
  }

  function FromEscapedString(s: Text): Result<Component> {
    var t := Trim(s);
    var n := |SHA256_DIGEST_URI_PREFIX|;
    if SHA256_DIGEST_URI_PREFIX <= t then
      if |t| != n + DIGEST_SIZE * 2 then Err(BadDigestUri)
      else
        match FromHex(t[n..])
        case Err(e) => Err(e)
        case Ok(v) => Ok(Component(IMPLICIT_DIGEST, v))
    else
      var value := Unescape(t);
      if !AllDots(value) then Ok(Component(NAME_COMPONENT, value))
      else if |value| <= 2 then Err(DotComponent)
      else Ok(Component(NAME_COMPONENT, value[3..]))
  }

  // ----- names -----

  /** Pieces of text, each after a slash. */
  function Join(pieces: seq<Text>): Text {
    if |pieces| == 0 then [] else [SLASH] + (pieces[0] + Join(pieces[1..]))
  }

  lemma {:induction false} JoinAppend(pieces: seq<Text>, x: Text)
    ensures Join(pieces + [x]) == Join(pieces) + [SLASH] + x
  {
    if |pieces| == 0 {
      assert [x][1..] == [] && x + [] == x;
    } else {
      assert (pieces + [x])[1..] == pieces[1..] + [x];
      JoinAppend(pieces[1..], x);
    }
  }

  function Uris(n: Name): (r: seq<Text>)
    ensures |r| == |n| && forall i :: 0 <= i < |n| ==> r[i] == ComponentUri(n[i])
  {
    seq(|n|, i requires 0 <= i < |n| => ComponentUri(n[i]))
  }

  function Printed(n: Name): Text {
    if |n| == 0 then [SLASH] else Join(Uris(n))
  }

  /** operator<<. */
  method PrintName(n: Name) returns (os: Text)
    ensures os == Printed(n)
  {
    if |n| == 0 {
      return [SLASH];
    }
    os := [];
    ghost var uris := Uris(n);
    var i := 0;
    while i < |n|
      invariant i <= |n| && os == Join(uris[..i])
    {
      JoinAppend(uris[..i], uris[i]);
      assert uris[..i + 1] == uris[..i] + [uris[i]];
      os := os + [SLASH];
      var uri := ToUri(n[i]);
      os := os + uri;
      i := i + 1;
    }
    assert uris[..i] == uris;
  }

  /** std::string::find from a position on; the length of the text stands for npos. */
  function Find(s: Text, c: byte, from: nat): (i: nat)
    requires from <= |s|
    ensures from <= i <= |s| && (i < |s| ==> s[i] == c)
    ensures forall j :: from <= j < i ==> s[j] != c
    decreases |s| - from
  {
    if from == |s| || s[from] == c then from else Find(s, c, from + 1)
  }

  lemma FindUnique(s: Text, c: byte, from: nat, i: nat)
    requires from <= i <= |s| && (i < |s| ==> s[i] == c) && forall j :: from <= j < i ==> s[j] != c
    ensures Find(s, c, from) == i
  {
  }

  /** The components of a text, from a position on, by way of parse; a slash at the very end adds no component. */
  function ParseFrom(parse: Text -> Result<Component>, s: Text, start: nat): Result<Name>
    decreases |s| - start
  {
    if start >= |s| then Ok([])
    else
      var end := Find(s, SLASH, start);
      match parse(s[start..end])
      case Err(e) => Err(e)
      case Ok(c) => Prepend([c], ParseFrom(parse, s, end + 1))
  }

  function Prepend(done: Name, rest: Result<Name>): Result<Name> {
    match rest
    case Err(e) => Err(e)
    case Ok(n) => Ok(done + n)
  }

  lemma PrependStep(done: Name, c: Component, rest: Result<Name>)
    ensures Prepend(done, Prepend([c], rest)) == Prepend(done + [c], rest)
    ensures Prepend([], rest) == rest && Prepend(done, Ok([])) == Ok(done)
  {
    if rest.Ok? {
      assert done + ([c] + rest.value) == done + [c] + rest.value && [] + rest.value == rest.value;
    }
    assert done + [] == done;
  }

  /** Without a leading scheme. */
  function StripScheme(s: Text): Text {
    var iColon := Find(s, COLON, 0);
    if iColon == |s| then s
    else
      var iFirstSlash := Find(s, SLASH, 0);
      if iFirstSlash == |s| || iColon < iFirstSlash then Trim(s[iColon + 1..]) else s
  }

  /** Without the leading slash and the authority; None if there is only an authority. */
  function StripAuthority(s: Text): Option<Text> {
    if |s| == 0 || s[0] != SLASH then Some(s)
    else if |s| >= 2 && s[1] == SLASH then
      var iAfterAuthority := Find(s, SLASH, 2);
      if iAfterAuthority == |s| then None else Some(Trim(s[iAfterAuthority + 1..]))
    else Some(Trim(s[1..]))
  }

  function ParseName(uri: Text): Result<Name> {
    var s := Trim(uri);
    if |s| == 0 then Ok([])
    else
      match StripAuthority(StripScheme(s))
      case None => Ok([])
      case Some(rest) => ParseFrom(FromEscapedString, rest, 0)
  }

  /** The constructor from a URI. */
  method NameFromUri(text: Text) returns (r: Result<Name>)
    ensures r == ParseName(text)
  {
    var uri := Trim(text);
    if |uri| == 0 {
      return Ok([]);
    }
    uri := StripScheme(uri);
    var stripped := StripAuthority(uri);
    if stripped.None? {
      return Ok([]);
    }
    r := ParsePieces(FromEscapedString, stripped.value);
  }

  /** The loop over the components. */
  method ParsePieces(parse: Text -> Result<Component>, uri: Text) returns (r: Result<Name>)
    ensures r == ParseFrom(parse, uri, 0)
  {
    var name: Name := [];
    var iComponentStart := 0;
    PrependStep([], Component(NAME_COMPONENT, []), ParseFrom(parse, uri, 0));
    while iComponentStart < |uri|
      invariant ParseFrom(parse, uri, 0) == Prepend(name, ParseFrom(parse, uri, iComponentStart))
      decreases |uri| - iComponentStart
    {
      var iComponentEnd := Find(uri, SLASH, iComponentStart);
      var component := parse(uri[iComponentStart..iComponentEnd]);
      if component.Err? {
        return Err(component.error);
      }
      PrependStep(name, component.value, ParseFrom(parse, uri, iComponentEnd + 1));
      name := name + [component.value];
      iComponentStart := iComponentEnd + 1;
    }
    PrependStep(name, Component(NAME_COMPONENT, []), Ok([]));
    r := Ok(name);
  }

  // ----- round trip -----

  lemma UnescapeByte(x: byte, rest: Text)
    ensures Unescape(EscapeByte(x) + rest) == [x] + Unescape(rest)
  {
  }

  lemma {:induction false} UnescapeEscaped(v: Text, rest: Text)
    ensures Unescape(Escape(v) + rest) == v + Unescape(rest)
  {
    if |v| == 0 {
      assert Escape(v) + rest == rest && v + Unescape(rest) == Unescape(rest);
    } else {
      var k := |v| - 1;
      var front, x := v[..k], v[k];
      assert Escape(v) == Escape(front) + EscapeByte(x);
      Regroup(Escape(front), EscapeByte(x), rest);
      UnescapeEscaped(front, EscapeByte(x) + rest);
      UnescapeByte(x, rest);
      Regroup(front, [x], Unescape(rest));
      assert front + [x] == v;
    }
  }

  lemma {:induction false} UnescapeNothing(s: Text)
    requires forall i :: 0 <= i < |s| ==> s[i] != PERCENT
    ensures Unescape(s) == s
    decreases |s|
  {
    if |s| > 0 {
      UnescapeNothing(s[1..]);
    }
  }

  lemma {:induction false} EscapedChars(v: Text)
    ensures forall i :: 0 <= i < |Escape(v)| ==> Unreserved(Escape(v)[i]) || Escape(v)[i] == PERCENT
    ensures |Escape(v)| >= |v|
  {
    if |v| > 0 {
      EscapedChars(v[..|v| - 1]);
    }
  }

  lemma {:induction false} HexRoundTrip(v: Text)
    ensures |LowerHex(v)| == 2 * |v| && FromHex(LowerHex(v)) == Ok(v)
    ensures forall i :: 0 <= i < |LowerHex(v)| ==> Unreserved(LowerHex(v)[i])
  {
    if |v| > 0 {
      var k := |v| - 1;
      HexRoundTrip(v[..k]);
      HexDigits(v[k] / 16);
      HexDigits(v[k] % 16);
      assert LowerHex(v)[..2 * k] == LowerHex(v[..k]);
      assert v[..k] + [v[k]] == v;
    }
  }

  /** The characters of a printed component end no component, name no scheme and are not trimmed. */
  predicate Plain(x: byte) {
    !IsSpace(x) && x != SLASH && x != COLON
  }

  lemma PrintedChars(c: Component)
    ensures |ComponentUri(c)| > 0 && forall i :: 0 <= i < |ComponentUri(c)| ==> Plain(ComponentUri(c)[i])
  {
    if c.typ == IMPLICIT_DIGEST {
      HexRoundTrip(c.value);
    } else if !AllDots(c.value) {
      EscapedChars(c.value);
    }
  }

  lemma TrimNothing(s: Text)
    requires |s| > 0 ==> !IsSpace(s[0]) && !IsSpace(s[|s| - 1])
    ensures Trim(s) == s
  {
  }

  /** Parsing a printed component gives it back. */
  lemma ComponentRoundTrip(c: Component)
    requires IsValid(c)
    ensures FromEscapedString(ComponentUri(c)) == Ok(c)
  {
    var t := ComponentUri(c);
    PrintedChars(c);
    TrimNothing(t);
    if c.typ == IMPLICIT_DIGEST {
      HexRoundTrip(c.value);
      assert t[|SHA256_DIGEST_URI_PREFIX|..] == LowerHex(c.value);
    } else if AllDots(c.value) {
      UnescapeNothing(t);
      assert t[0] == DOT && t[3..] == c.value;
    } else {
      EscapedChars(c.value);
      assert SHA256_DIGEST_URI_PREFIX[12] == 61 && (|t| > 12 ==> t[12] != 61);
      UnescapeEscaped(c.value, []);
      assert t + [] == t && c.value + [] == c.value;
    }
  }

  /** A piece without slashes, followed by nothing or by a slash. */
  lemma PieceEnd(s: Text, start: nat, first: Text, tail: Text)
    requires start <= |s| && s[start..] == first + tail
    requires (forall i :: 0 <= i < |first| ==> first[i] != SLASH) && (|tail| > 0 ==> tail[0] == SLASH)
    ensures var end := start + |first|;
            end <= |s| && Find(s, SLASH, start) == end && s[start..end] == first &&
            if |tail| == 0 then end == |s| else end < |s| && s[end + 1..] == tail[1..]
  {
    var end := start + |first|;
    assert |s| == end + |tail|;
    forall i | start <= i < end
      ensures s[i] == first[i - start]
    {
      assert s[i] == s[start..][i - start];
    }
    if |tail| > 0 {
      assert s[end] == s[start..][|first|];
      assert s[end + 1..] == s[start..][|first| + 1..];
    }
    FindUnique(s, SLASH, start, end);
  }

  predicate NoSlash(s: Text) {
    forall i :: 0 <= i < |s| ==> s[i] != SLASH
  }

  /** A piece that is parsed first. */
  lemma ParseFirst(parse: Text -> Result<Component>, s: Text, start: nat, piece: Text, tail: Text, c: Component)
    requires start <= |s| && s[start..] == piece + tail && |piece| > 0 && NoSlash(piece) &&
             (|tail| > 0 ==> tail[0] == SLASH)
    requires parse(piece) == Ok(c)
    ensures var end := start + |piece|;
            end <= |s| && ParseFrom(parse, s, start) == Prepend([c], ParseFrom(parse, s, end + 1)) &&
            if |tail| == 0 then end == |s| else end < |s| && s[end + 1..] == tail[1..]
  {
    PieceEnd(s, start, piece, tail);
  }

  /** Joined pieces without the leading slash. */
  function Body(pieces: seq<Text>): Text
    requires |pieces| > 0
  {
    pieces[0] + Join(pieces[1..])
  }

  lemma JoinedBody(pieces: seq<Text>)
    requires |pieces| > 0
    ensures Join(pieces)[1..] == Body(pieces) && Join(pieces)[0] == SLASH && |Join(pieces)| == 1 + |Body(pieces)|
  {
  }

  lemma PrependOne(n: Name)
    requires |n| > 0
    ensures Prepend([n[0]], Ok(n[1..])) == Ok(n)
  {
    assert [n[0]] + n[1..] == n;
  }

  /** The piece is parsed as the component, whatever parses it. */
  predicate PieceFor(parse: Text -> Result<Component>, piece: Text, c: Component) {
    |piece| > 0 && NoSlash(piece) && parse(piece) == Ok(c)
  }

  predicate PiecesFor(parse: Text -> Result<Component>, pieces: seq<Text>, n: Name) {
    |pieces| == |n| && forall i :: 0 <= i < |n| ==> PieceFor(parse, pieces[i], n[i])
  }

  lemma PiecesTail(parse: Text -> Result<Component>, pieces: seq<Text>, n: Name)
    requires |n| > 0 && PiecesFor(parse, pieces, n)
    ensures PieceFor(parse, pieces[0], n[0]) && PiecesFor(parse, pieces[1..], n[1..])
  {
  }

  lemma SplitFirst(parse: Text -> Result<Component>, s: Text, start: nat, pieces: seq<Text>, c: Component)
    requires |pieces| > 0 && start <= |s| && s[start..] == Body(pieces) && PieceFor(parse, pieces[0], c)
    ensures var end := start + |pieces[0]|;
            end <= |s| && ParseFrom(parse, s, start) == Prepend([c], ParseFrom(parse, s, end + 1)) &&
            if |pieces| == 1 then end == |s| else end < |s| && s[end + 1..] == Body(pieces[1..])
  {
    var tail := Join(pieces[1..]);
    if |pieces| > 1 {
      JoinedBody(pieces[1..]);
    }
    ParseFirst(parse, s, start, pieces[0], tail, c);
  }

  /** The text is split into the pieces it was joined from. */
  lemma {:induction false} ParseJoined(parse: Text -> Result<Component>, s: Text, start: nat, pieces: seq<Text>,
                                       n: Name)
    requires |n| > 0 && PiecesFor(parse, pieces, n) && start <= |s| && s[start..] == Body(pieces)
    ensures ParseFrom(parse, s, start) == Ok(n)
    decreases |n|
  {
    PiecesTail(parse, pieces, n);
    SplitFirst(parse, s, start, pieces, n[0]);
    PrependOne(n);
    if |n| > 1 {
      ParseJoined(parse, s, start + |pieces[0]| + 1, pieces[1..], n[1..]);
    } else {
      assert n[1..] == [];
    }
  }

  predicate PlainText(s: Text) {
    forall i :: 0 <= i < |s| ==> Plain(s[i])
  }

  /** Joined plain pieces hold nothing but plain characters and slashes, and end in a plain character. */
  lemma {:induction false} JoinedChars(pieces: seq<Text>)
    requires forall i :: 0 <= i < |pieces| ==> |pieces[i]| > 0 && PlainText(pieces[i])
    ensures forall i :: 0 <= i < |Join(pieces)| ==> Plain(Join(pieces)[i]) || Join(pieces)[i] == SLASH
    ensures |pieces| > 0 ==> Plain(Join(pieces)[|Join(pieces)| - 1])
  {
    if |pieces| > 0 {
      JoinedChars(pieces[1..]);
      JoinedBody(pieces);
      var body := Body(pieces);
      assert PlainText(pieces[0]);
      forall i | 0 <= i < |body|
        ensures Plain(body[i]) || body[i] == SLASH
      {
        assert i >= |pieces[0]| ==> body[i] == Join(pieces[1..])[i - |pieces[0]|];
      }
      assert forall i :: 0 < i < |Join(pieces)| ==> Join(pieces)[i] == body[i - 1];
      assert |pieces| == 1 ==> Join(pieces[1..]) == [];
    }
  }

  lemma StripSlash(s: Text)
    requires |s| > 1 && s[0] == SLASH && Plain(s[1]) && Plain(s[|s| - 1])
    requires forall i :: 0 <= i < |s| ==> Plain(s[i]) || s[i] == SLASH
    ensures Trim(s) == s && StripScheme(s) == s && StripAuthority(s) == Some(s[1..])
  {
  }

  lemma PrintedPiece(c: Component)
    requires IsValid(c)
    ensures |ComponentUri(c)| > 0 && PlainText(ComponentUri(c)) && NoSlash(ComponentUri(c))
    ensures FromEscapedString(ComponentUri(c)) == Ok(c)
  {
    PrintedChars(c);
    ComponentRoundTrip(c);
  }

  lemma JoinedStripped(pieces: seq<Text>)
    requires |pieces| > 0 && forall i :: 0 <= i < |pieces| ==> |pieces[i]| > 0 && PlainText(pieces[i])
    ensures var s := Join(pieces);
            |s| > 1 && Trim(s) == s && StripScheme(s) == s && StripAuthority(s) == Some(Body(pieces))
  {
    var s := Join(pieces);
    JoinedBody(pieces);
    JoinedChars(pieces);
    assert s[1] == s[1..][0] == pieces[0][0];
    assert PlainText(pieces[0]);
    StripSlash(s);
  }

  lemma ParseStripped(text: Text, rest: Text)
    requires Trim(text) == text && |text| > 0 && StripAuthority(StripScheme(text)) == Some(rest)
    ensures ParseName(text) == ParseFrom(FromEscapedString, rest, 0)
  {
  }

  lemma ParseJoinedText(pieces: seq<Text>, n: Name)
    requires |pieces| == |n| > 0
    requires forall i :: 0 <= i < |n| ==> |pieces[i]| > 0 && PlainText(pieces[i]) && NoSlash(pieces[i])
    requires ParseFrom(FromEscapedString, Body(pieces), 0) == Ok(n)
    ensures ParseName(Join(pieces)) == Ok(n)
  {
    JoinedStripped(pieces);
    ParseStripped(Join(pieces), Body(pieces));
  }

  /** The text of a name after its first slash is split into the name's components. */
  lemma BodyParses(n: Name)
    requires |n| > 0 && forall i :: 0 <= i < |n| ==> IsValid(n[i])
    ensures var pieces := Uris(n);
            (forall i :: 0 <= i < |n| ==> |pieces[i]| > 0 && PlainText(pieces[i]) && NoSlash(pieces[i])) &&
            ParseFrom(FromEscapedString, Body(pieces), 0) == Ok(n)
  {
    var pieces := Uris(n);
    forall i | 0 <= i < |n|
      ensures PlainText(pieces[i]) && PieceFor(FromEscapedString, pieces[i], n[i])
    {
      PrintedPiece(n[i]);
    }
    assert Body(pieces)[0..] == Body(pieces);
    ParseJoined(FromEscapedString, Body(pieces), 0, pieces, n);
  }

  /** Parsing a printed name gives it back, whatever bytes its components hold. */
  lemma NameRoundTrip(n: Name)
    requires forall i :: 0 <= i < |n| ==> IsValid(n[i])
    ensures ParseName(Printed(n)) == Ok(n)
  {
    if |n| == 0 {
      assert [SLASH][1..] == [];
    } else {
      BodyParses(n);
      ParseJoinedText(Uris(n), n);
    }
  }

  /** Different names print differently. */
  lemma PrintInjective(m: Name, n: Name)
    requires forall i :: 0 <= i < |m| ==> IsValid(m[i])
    requires forall i :: 0 <= i < |n| ==> IsValid(n[i])
    requires Printed(m) == Printed(n)
    ensures m == n
  {
    NameRoundTrip(m);
    NameRoundTrip(n);
  }
}
