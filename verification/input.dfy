/**
  Input canonicalisation of `RGBAFrom`, `HSLAFrom` and `HEXAFrom`: each
  accepts an object with named fields, an array read positionally, a string,
  or the channels as separate arguments, and reduces all of them to four
  optional fields. Strings are stripped of their CSS wrapper, split on
  commas and read with `Number`; hex strings are cut into two-digit parts.
 */
module Input {
  import opened Wrappers
  import opened Text

  /** Four channels as `[first, second, third, fourth]` would destructure
      them: an absent channel is `undefined`. */
  datatype Fields<T> = Fields(first: Option<T>, second: Option<T>, third: Option<T>, fourth: Option<T>)

  /** Entry `i` of an array, or `undefined` past its end. */
  function At<T>(xs: seq<T>, i: nat): (r: Option<T>)
    ensures r.Some? <==> i < |xs|
    ensures i < |xs| ==> r.value == xs[i]
  {
    if i < |xs| then Some(xs[i]) else None
  }

  /** `x` is one of the four channels. */
  predicate Present<T(==)>(f: Fields<T>, x: T) {
    f.first == Some(x) || f.second == Some(x) || f.third == Some(x) || f.fourth == Some(x)
  }

  /** `[a, b, c, d] = xs`: the first four entries, in order. */
  function Positional<T>(xs: seq<T>): Fields<T> {
    Fields(At(xs, 0), At(xs, 1), At(xs, 2), At(xs, 3))
  }

  /** Entries beyond the fourth are ignored. */
  lemma PositionalFour<T>(xs: seq<T>, extra: seq<T>)
    requires |xs| == 4
    ensures Positional(xs + extra) == Positional(xs) == Fields(Some(xs[0]), Some(xs[1]), Some(xs[2]), Some(xs[3]))
  {
  }

  function Finites(xs: seq<real>): (r: seq<Num>)
    ensures |r| == |xs|
    ensures forall i :: 0 <= i < |xs| ==> r[i] == Finite(xs[i])
  {
    seq(|xs|, i requires 0 <= i < |xs| => Finite(xs[i]))
  }

  function FiniteOr(x: Option<real>): Option<Num> {
    match x
    case None => None
    case Some(v) => Some(Finite(v))
  }

  function FiniteFields(f: Fields<real>): Fields<Num> {
    Fields(FiniteOr(f.first), FiniteOr(f.second), FiniteOr(f.third), FiniteOr(f.fourth))
  }

  /** The numbers of a stripped channel list: split on "," and read each
      piece with `Number`. */
  function ParseList(s: string): (r: seq<Num>)
    ensures |r| == Count(s, ',') + 1
    ensures forall i :: 0 <= i < |r| ==> r[i] == ParseNumber(Split(s, ',')[i])
  {
    var parts := Split(s, ',');
    seq(|parts|, i requires 0 <= i < |parts| => ParseNumber(parts[i]))
  }

  /** Pieces joined with commas are read back piece by piece. */
  lemma ParseListJoin(pieces: seq<string>)
    requires |pieces| >= 1
    requires forall i :: 0 <= i < |pieces| ==> ',' !in pieces[i]
    ensures |ParseList(Join(pieces, ','))| == |pieces|
    ensures forall i :: 0 <= i < |pieces| ==> ParseList(Join(pieces, ','))[i] == ParseNumber(pieces[i])
  {
    SplitJoin(pieces, ',');
  }

  /** What `RGBAFrom` accepts. */
  datatype RgbaInput =
    | RgbaObject(fields: Fields<real>)
    | RgbaArray(items: seq<real>)
    | RgbaString(text: string)
    | RgbaValues(r: real, g: Option<real>, b: Option<real>, a: Option<real>)

  /** `RGBAFrom`: the channels it passes on to the RGB record. A string loses
      `rgb(`, `rgba(`, `(` and `)`, then is split and read. */
  function RgbaFrom(input: RgbaInput): (f: Fields<Num>)
    ensures input.RgbaValues? ==> f.first == Some(Finite(input.r))
    ensures input.RgbaArray? ==> f == Positional(Finites(input.items))
  {
    match input
    case RgbaObject(fields) => FiniteFields(fields)
    case RgbaArray(items) => Positional(Finites(items))
    case RgbaString(text) => Positional(ParseList(StripWrapper(text, "rgb", false)))
    case RgbaValues(r, g, b, a) => Fields(Some(Finite(r)), FiniteOr(g), FiniteOr(b), FiniteOr(a))
  }

  /** Object, array and separate arguments carrying the same four channels
      all give the same fields. */
  lemma RgbaFormsAgree(r: real, g: real, b: real, a: real)
    ensures RgbaFrom(RgbaObject(Fields(Some(r), Some(g), Some(b), Some(a))))
         == RgbaFrom(RgbaArray([r, g, b, a]))
         == RgbaFrom(RgbaValues(r, Some(g), Some(b), Some(a)))
         == Fields(Some(Finite(r)), Some(Finite(g)), Some(Finite(b)), Some(Finite(a)))
  {
  }

  /** The functional notation reads exactly the comma-separated pieces inside
      it, with or without the `a`, and so does the bare list. */
  lemma RgbaStringPieces(body: string)
    requires '(' !in body && ')' !in body
    ensures RgbaFrom(RgbaString("rgb(" + body + ")")) == Positional(ParseList(body))
    ensures RgbaFrom(RgbaString("rgba(" + body + ")")) == Positional(ParseList(body))
    ensures RgbaFrom(RgbaString(body)) == Positional(ParseList(body))
  {
    StripParenFree(body, "rgb", false);
    StripFunctional("rgb", body, false);
    assert "rgb" + "(" == "rgb(";
    assert "rgb" + "a(" == "rgba(";
  }

  /** Joining pieces without parentheses with a comma adds none. */
  lemma {:induction false} JoinParenFree(pieces: seq<string>, sep: char)
    requires |pieces| >= 1 && sep != '(' && sep != ')'
    requires forall i :: 0 <= i < |pieces| ==> '(' !in pieces[i] && ')' !in pieces[i]
    ensures '(' !in Join(pieces, sep) && ')' !in Join(pieces, sep)
    decreases |pieces|
  {
    if |pieces| > 1 {
      JoinParenFree(pieces[1..], sep);
    }
  }

  /** What `HSLAFrom` accepts. */
  datatype HslaInput =
    | HslaObject(fields: Fields<real>)
    | HslaArray(items: seq<real>)
    | HslaString(text: string)
    | HslaValues(h: real, s: Option<real>, l: Option<real>, a: Option<real>)

  /** Where the HSL channels come from: parsed fields, or a colour name to
      be looked up. */
  datatype HslaSource = Parsed(fields: Fields<Num>) | Named(name: string)

  predicate IsLetter(c: char) { 'a' <= c <= 'z' || 'A' <= c <= 'Z' }

  /** `/^[a-z\s]+$/i`: non-empty, letters and white space only. */
  predicate IsCssName(s: string) {
    |s| > 0 && forall i :: 0 <= i < |s| ==> IsLetter(s[i]) || IsSpace(s[i])
  }

  /** `HSLAFrom`: a string of letters and white space is a colour name;
      any other string loses `hsl(`, `hsla(`, `(`, `)` and `%`, then is split
      and read. */
  function HslaFrom(input: HslaInput): (r: HslaSource)
    ensures r.Named? <==> input.HslaString? && IsCssName(input.text)
    ensures r.Named? ==> r.name == input.text
    ensures input.HslaArray? ==> r == Parsed(Positional(Finites(input.items)))
  {
    match input
    case HslaObject(fields) => Parsed(FiniteFields(fields))
    case HslaArray(items) => Parsed(Positional(Finites(items)))
    case HslaString(text) =>
      if IsCssName(text) then Named(text)
      else Parsed(Positional(ParseList(StripWrapper(text, "hsl", true))))
    case HslaValues(h, s, l, a) => Parsed(Fields(Some(Finite(h)), FiniteOr(s), FiniteOr(l), FiniteOr(a)))
  }

  /** Object, array and separate arguments carrying the same four channels
      all give the same fields. */
  lemma HslaFormsAgree(h: real, s: real, l: real, a: real)
    ensures HslaFrom(HslaObject(Fields(Some(h), Some(s), Some(l), Some(a))))
         == HslaFrom(HslaArray([h, s, l, a]))
         == HslaFrom(HslaValues(h, Some(s), Some(l), Some(a)))
         == Parsed(Fields(Some(Finite(h)), Some(Finite(s)), Some(Finite(l)), Some(Finite(a))))
  {
  }

  /** Text with a parenthesis is never a colour name. */
  lemma ParenNotName(s: string, k: nat)
    requires k < |s| && (s[k] == '(' || s[k] == ')')
    ensures !IsCssName(s)
  {
    assert !IsLetter(s[k]) && !IsSpace(s[k]);
  }

  /** `\s` covers every Unicode space separator, so letters followed by,
      say, an ideographic space still take the name path. */
  lemma SpaceSeparatorName(word: string, c: char)
    requires |word| > 0 && forall i :: 0 <= i < |word| ==> IsLetter(word[i])
    requires IsSpaceSeparator(c)
    ensures IsCssName(word + [c])
    ensures HslaFrom(HslaString(word + [c])) == Named(word + [c])
  {
    var s := word + [c];
    assert forall i :: 0 <= i < |word| ==> s[i] == word[i];
    assert s[|word|] == c;
  }

  /** Inside `hsl(…)`, `hsla(…)` or `(…)`, and in a bare list, percent signs
      are dropped and the pieces between commas are read. */
  lemma HslaStringPieces(body: string)
    requires '(' !in body && ')' !in body
    ensures HslaFrom(HslaString("hsl(" + body + ")")) == Parsed(Positional(ParseList(Erase(body, IsPercentSign))))
    ensures HslaFrom(HslaString("hsla(" + body + ")")) == Parsed(Positional(ParseList(Erase(body, IsPercentSign))))
    ensures HslaFrom(HslaString("(" + body + ")")) == Parsed(Positional(ParseList(Erase(body, IsPercentSign))))
    ensures !IsCssName(body) ==> HslaFrom(HslaString(body)) == Parsed(Positional(ParseList(Erase(body, IsPercentSign))))
  {
    var clean := Erase(body, IsPercentSign);
    HslPiecesNamed(body);
    HslPiecesNamedA(body);
    HslPiecesBare(body);
    if !IsCssName(body) {
      StripParenFree(body, "hsl", true);
      HslaParsed(body, clean);
    }
  }

  lemma HslPiecesNamed(body: string)
    requires '(' !in body && ')' !in body
    ensures HslaFrom(HslaString("hsl(" + body + ")")) == Parsed(Positional(ParseList(Erase(body, IsPercentSign))))
  {
    var t := "hsl(" + body + ")";
    StripParenFree(body, "hsl", true);
    StripFunctional("hsl", body, true);
    assert "hsl" + "(" == "hsl(";
    ParenNotName(t, 3);
    HslaParsed(t, Erase(body, IsPercentSign));
  }

  lemma HslPiecesNamedA(body: string)
    requires '(' !in body && ')' !in body
    ensures HslaFrom(HslaString("hsla(" + body + ")")) == Parsed(Positional(ParseList(Erase(body, IsPercentSign))))
  {
    var t := "hsla(" + body + ")";
    StripParenFree(body, "hsl", true);
    StripFunctional("hsl", body, true);
    assert "hsl" + "a(" == "hsla(";
    ParenNotName(t, 4);
    HslaParsed(t, Erase(body, IsPercentSign));
  }

  lemma HslPiecesBare(body: string)
    requires '(' !in body && ')' !in body
    ensures HslaFrom(HslaString("(" + body + ")")) == Parsed(Positional(ParseList(Erase(body, IsPercentSign))))
  {
    var t := "(" + body + ")";
    StripParenFree(body, "hsl", true);
    StripFunctional("hsl", body, true);
    ParenNotName(t, 0);
    HslaParsed(t, Erase(body, IsPercentSign));
  }

  /** A bare list of two pieces, "128, 50%": the percent sign goes and the
      two numbers fill the hue and the saturation. */
  lemma HslaShortList()
    ensures HslaFrom(HslaString("128, 50%")) == Parsed(Fields(Some(Finite(128.0)), Some(Finite(50.0)), None, None))
  {
    HslaShortRoute();
    ShortErase();
    ShortNumbers();
  }

  lemma HslaShortRoute()
    ensures HslaFrom(HslaString("128, 50%")) == Parsed(Positional(ParseList(Erase("128, 50%", IsPercentSign))))
  {
    ShortNotName();
    ShortStrip();
  }

  lemma ShortNotName()
    ensures !IsCssName("128, 50%")
  {
    assert "128, 50%"[0] == '1';
  }

  lemma ShortStrip()
    ensures StripWrapper("128, 50%", "hsl", true) == Erase("128, 50%", IsPercentSign)
  {
    StripParenFree("128, 50%", "hsl", true);
  }

  lemma ShortErase()
    ensures Erase("128, 50%", IsPercentSign) == "128, 50"
  {
    EraseAppend("128, 50", "%", IsPercentSign);
    ShortKept();
    assert "128, 50" + "%" == "128, 50%";
  }

  lemma ShortKept()
    ensures Erase("128, 50", IsPercentSign) == "128, 50"
  {
    EraseNothing("128, 50", IsPercentSign);
  }

  lemma ShortNumbers()
    ensures ParseList("128, 50") == [Finite(128.0), Finite(50.0)]
  {
    ShortJoin();
    ParseListJoin(["128", " 50"]);
    ParseExampleHue();
    ParseExampleFifty();
  }

  lemma ShortJoin()
    ensures Join(["128", " 50"], ',') == "128, 50"
  {
    assert ["128", " 50"][1..] == [" 50"];
  }

  /** The functional notation with all four channels, "hsl(128, 50%, 60%,
      0.7)" and its `hsla` spelling: the wrapper and the percent signs go and
      the four numbers fill the channels in order. */
  lemma HslaFullList()
    ensures HslaFrom(HslaString("hsl(128, 50%, 60%, 0.7)")) == Parsed(Fields(Some(Finite(128.0)), Some(Finite(50.0)), Some(Finite(60.0)), Some(Finite(0.7))))
    ensures HslaFrom(HslaString("hsla(128, 50%, 60%, 0.7)")) == Parsed(Fields(Some(Finite(128.0)), Some(Finite(50.0)), Some(Finite(60.0)), Some(Finite(0.7))))
  {
    FullRoute();
    FullErase();
    FullNumbers();
  }

  lemma FullRoute()
    ensures HslaFrom(HslaString("hsl(128, 50%, 60%, 0.7)")) == Parsed(Positional(ParseList(Erase("128, 50%, 60%, 0.7", IsPercentSign))))
    ensures HslaFrom(HslaString("hsla(128, 50%, 60%, 0.7)")) == Parsed(Positional(ParseList(Erase("128, 50%, 60%, 0.7", IsPercentSign))))
  {
    FullParenFree();
    HslPiecesNamed("128, 50%, 60%, 0.7");
    HslPiecesNamedA("128, 50%, 60%, 0.7");
    FullWrapped();
  }

  lemma FullParenFree()
    ensures '(' !in "128, 50%, 60%, 0.7" && ')' !in "128, 50%, 60%, 0.7"
  {
  }

  lemma FullWrapped()
    ensures "hsl(" + "128, 50%, 60%, 0.7" + ")" == "hsl(128, 50%, 60%, 0.7)"
    ensures "hsla(" + "128, 50%, 60%, 0.7" + ")" == "hsla(128, 50%, 60%, 0.7)"
  {
  }

  lemma FullErase()
    ensures Erase("128, 50%, 60%, 0.7", IsPercentSign) == Join(["128", " 50", " 60", " 0.7"], ',')
  {
    FullJoin();
    ErasePieces();
    EraseAcrossJoin(["128", " 50%", " 60%", " 0.7"], ["128", " 50", " 60", " 0.7"], ',', IsPercentSign);
  }

  lemma FullJoin()
    ensures Join(["128", " 50%", " 60%", " 0.7"], ',') == "128, 50%, 60%, 0.7"
  {
    assert ["128", " 50%", " 60%", " 0.7"][1..] == [" 50%", " 60%", " 0.7"];
    assert [" 50%", " 60%", " 0.7"][1..] == [" 60%", " 0.7"];
    assert [" 60%", " 0.7"][1..] == [" 0.7"];
  }

  lemma ErasePieces()
    ensures Erase("128", IsPercentSign) == "128"
    ensures Erase(" 50%", IsPercentSign) == " 50"
    ensures Erase(" 60%", IsPercentSign) == " 60"
    ensures Erase(" 0.7", IsPercentSign) == " 0.7"
  {
    EraseNothing("128", IsPercentSign);
    EraseNothing(" 0.7", IsPercentSign);
  }

  lemma FullNumbers()
    ensures Positional(ParseList(Join(["128", " 50", " 60", " 0.7"], ','))) == Fields(Some(Finite(128.0)), Some(Finite(50.0)), Some(Finite(60.0)), Some(Finite(0.7)))
  {
    FourPieces("128", " 50", " 60", " 0.7");
    ParseExampleHue();
    ParseExampleFifty();
    ParseExampleSixty();
    ParseExampleAlpha();
  }

  /** Four comma-free pieces joined with commas fill the four channels. */
  lemma FourPieces(a: string, b: string, c: string, d: string)
    requires ',' !in a && ',' !in b && ',' !in c && ',' !in d
    ensures Positional(ParseList(Join([a, b, c, d], ','))) == Fields(Some(ParseNumber(a)), Some(ParseNumber(b)), Some(ParseNumber(c)), Some(ParseNumber(d)))
  {
    ParseListJoin([a, b, c, d]);
  }

  lemma HslaParsed(text: string, clean: string)
    requires !IsCssName(text) && StripWrapper(text, "hsl", true) == clean
    ensures HslaFrom(HslaString(text)) == Parsed(Positional(ParseList(clean)))
  {
  }

  /** What `HEXAFrom` accepts; the string form carries the separate-argument
      channels that a plain string leaves in place. */
  datatype HexInput =
    | HexObject(fields: Fields<string>)
    | HexArray(items: seq<string>)
    | HexString(text: string, g: Option<string>, b: Option<string>, a: Option<string>)

  /** `/\(|\s|\)/`: what the comma path removes. */
  predicate IsHexNoise(c: char) { c == '(' || c == ')' || IsSpace(c) }

  /** Opaque black, for a `#` body without any match. */
  const DefaultHex: seq<string> := ["00", "00", "00", "FF"]

  /** `HEXAFrom`: a string with a comma goes the comma path; otherwise one
      starting with `#` goes the hash path; any other string is the red
      channel, the other channels staying as passed. */
  function HexaFrom(input: HexInput): (f: Fields<string>)
    ensures input.HexString? && ',' !in input.text && (|input.text| == 0 || input.text[0] != '#') ==>
      f == Fields(Some(input.text), input.g, input.b, input.a)
  {
    match input
    case HexObject(fields) => fields
    case HexArray(items) => Positional(items)
    case HexString(text, g, b, a) =>
      if ',' in text then HexComma(text)
      else if |text| > 0 && text[0] == '#' then HexHash(text[1..])
      else Fields(Some(text), g, b, a)
  }

  /** The comma path: parentheses and white space are removed and the rest
      is split on commas, giving at least two channels, none holding a comma
      or anything removed. */
  function HexComma(text: string): (f: Fields<string>)
    requires ',' in text
    ensures f.first.Some? && f.second.Some?
    ensures forall x :: Present(f, x) ==> ',' !in x && forall k :: 0 <= k < |x| ==> !IsHexNoise(x[k])
  {
    var parts := Split(Erase(text, IsHexNoise), ',');
    CommaSplit(text);
    SplitKeeps(Erase(text, IsHexNoise), ',', c => !IsHexNoise(c));
    assert forall i :: 0 <= i < |parts| ==> ',' !in parts[i] && forall k :: 0 <= k < |parts[i]| ==> !IsHexNoise(parts[i][k]);
    Positional(parts)
  }

  /** The hash path on the body after `#`: pairs of word characters for a
      body of six or more, each word character doubled for less, opaque
      black when nothing matches; every channel is two word characters. */
  function HexHash(body: string): (f: Fields<string>)
    ensures f.first.Some?
    ensures forall x :: Present(f, x) ==> |x| == 2 && AllWord(x)
  {
    assert forall i :: 0 <= i < |DefaultHex| ==> |DefaultHex[i]| == 2 && AllWord(DefaultHex[i]);
    Positional(HexParts(body).GetOr(DefaultHex))
  }

  /** A comma survives the erasure, so the split has at least two pieces. */
  lemma CommaSplit(text: string)
    requires ',' in text
    ensures |Split(Erase(text, IsHexNoise), ',')| >= 2
  {
    EraseKeeps(text, IsHexNoise, ',');
    CountIn(Erase(text, IsHexNoise), ',');
  }

  /** Comma path: clean pieces joined with commas come back as the fields. */
  lemma HexCommaPieces(pieces: seq<string>, g: Option<string>, b: Option<string>, a: Option<string>)
    requires |pieces| >= 2
    requires forall i :: 0 <= i < |pieces| ==>
      ',' !in pieces[i] && forall k :: 0 <= k < |pieces[i]| ==> !IsHexNoise(pieces[i][k])
    ensures HexaFrom(HexString(Join(pieces, ','), g, b, a)) == Positional(pieces)
  {
    var text := Join(pieces, ',');
    assert ',' in text by {
      assert text == pieces[0] + [','] + Join(pieces[1..], ',');
      assert text[|pieces[0]|] == ',';
    }
    EraseJoin(pieces);
    SplitJoin(pieces, ',');
  }

  /** Pieces with no noise, joined with commas, have nothing to erase. */
  lemma {:induction false} EraseJoin(pieces: seq<string>)
    requires |pieces| >= 1
    requires forall i :: 0 <= i < |pieces| ==> forall k :: 0 <= k < |pieces[i]| ==> !IsHexNoise(pieces[i][k])
    ensures Erase(Join(pieces, ','), IsHexNoise) == Join(pieces, ',')
    decreases |pieces|
  {
    EraseNothing(pieces[0], IsHexNoise);
    if |pieces| > 1 {
      EraseJoin(pieces[1..]);
      EraseAppend(pieces[0] + [','], Join(pieces[1..], ','), IsHexNoise);
      EraseAppend(pieces[0], [','], IsHexNoise);
    }
  }

  /** A comma decides the path even when the string starts with `#`:
      "#66,77,88" gives "#66", "77", "88". */
  lemma HexCommaBeforeHash()
    ensures HexaFrom(HexString("#66,77,88", None, None, None)) == Fields(Some("#66"), Some("77"), Some("88"), None)
  {
    var pieces := ["#66", "77", "88"];
    assert Join(pieces, ',') == "#66,77,88" by {
      assert pieces[1..] == ["77", "88"];
      assert ["77", "88"][1..] == ["88"];
    }
    HexCommaPieces(pieces, None, None, None);
  }

  /** `#` path, long body: the fields are the body cut in twos, and with
      four to eight word characters of even length they spell the body. */
  lemma HexLongPairs(body: string)
    requires |body| >= 6 && AllWord(body) && ',' !in body
    ensures HexaFrom(HexString("#" + body, None, None, None)) == Positional(WordPairs(body))
    ensures |WordPairs(body)| == |body| / 2
    ensures Concat(WordPairs(body)) == body[..|body| - |body| % 2]
  {
    var text := "#" + body;
    assert ',' !in text by {
      assert forall k :: 1 <= k < |text| ==> text[k] == body[k - 1];
    }
    assert text[1..] == body;
    WordPairsCut(body);
    assert WordPairs(body) != [] by {
      assert |body| / 2 >= 3;
    }
  }

  /** Six or more characters holding a pair give the pairs. */
  lemma HexHashLong(body: string)
    requires Utf16Length(body) >= 6 && WordPairs(body) != []
    ensures HexHash(body) == Positional(WordPairs(body))
  {
  }

  /** `#` path, short body of word characters: each character doubled, in
      order, as the fields. */
  lemma HexShortDoubled(body: string)
    requires 0 < |body| < 6 && AllWord(body)
    ensures HexaFrom(HexString("#" + body, None, None, None)) == Positional(Doubled(body))
  {
    var text := "#" + body;
    assert ',' !in text by {
      assert forall k :: 1 <= k < |text| ==> text[k] == body[k - 1];
    }
    assert text[1..] == body;
    HexPartsShort(body);
  }

  /** `#` path, short body: every word character is doubled, so "#abc"
      gives "aa", "bb", "cc". */
  lemma HexShortExample()
    ensures HexaFrom(HexString("#abc", None, None, None)) == Fields(Some("aa"), Some("bb"), Some("cc"), None)
  {
    HexShortRoute();
    HexShortFields();
  }

  lemma HexShortRoute()
    ensures HexaFrom(HexString("#abc", None, None, None)) == HexHash("abc")
  {
    var text := "#abc";
    assert ',' !in text;
    assert text[1..] == "abc";
  }

  lemma HexShortFields()
    ensures HexHash("abc") == Fields(Some("aa"), Some("bb"), Some("cc"), None)
  {
    ShortExample();
  }

  /** `#` path, long body: "#66778899" gives "66", "77", "88", "99". */
  lemma HexLongExample()
    ensures HexaFrom(HexString("#66778899", None, None, None)) == Fields(Some("66"), Some("77"), Some("88"), Some("99"))
  {
    HexLongRoute();
    HexLongFields();
  }

  lemma HexLongRoute()
    ensures HexaFrom(HexString("#66778899", None, None, None)) == HexHash("66778899")
  {
    var text := "#66778899";
    assert ',' !in text;
    assert text[1..] == "66778899";
  }

  lemma HexLongFields()
    ensures HexHash("66778899") == Fields(Some("66"), Some("77"), Some("88"), Some("99"))
  {
    LongExample();
    HexHashLong("66778899");
  }

  /** `#` path, length in UTF-16 code units: "#ab" followed by two
      characters beyond the Basic Multilingual Plane has a six-unit body, so
      it is cut in pairs and gives "ab" alone. */
  lemma HexAstralExample()
    ensures HexaFrom(HexString("#ab\U{1F600}\U{1F600}", None, None, None)) == Fields(Some("ab"), None, None, None)
  {
    HexAstralRoute();
    HexPartsAstral();
  }

  lemma HexAstralRoute()
    ensures HexaFrom(HexString("#ab\U{1F600}\U{1F600}", None, None, None)) == HexHash("ab\U{1F600}\U{1F600}")
  {
    var text := "#ab\U{1F600}\U{1F600}";
    assert ',' !in text;
    assert text[1..] == "ab\U{1F600}\U{1F600}";
  }

  /** `#` path: a body without word characters (the empty body included)
      gives opaque black, whatever its length. */
  lemma HexDefault(body: string)
    requires ',' !in body
    requires forall k :: 0 <= k < |body| ==> !IsWord(body[k])
    ensures HexaFrom(HexString("#" + body, None, None, None)) == Fields(Some("00"), Some("00"), Some("00"), Some("FF"))
  {
    var text := "#" + body;
    assert ',' !in text by {
      assert forall k :: 1 <= k < |text| ==> text[k] == body[k - 1];
    }
    assert text[1..] == body;
  }
}
