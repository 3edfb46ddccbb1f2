/**
  The text handling behind string input: `split(",")`, the regular-expression
  removal of CSS wrapper tokens, JavaScript's `Number(text)` for decimal
  literals, and the `\w` scans of a hex body. Strings are `seq<char>`.
 */
module Text {
  import opened Wrappers
  import opened Numeric

  // ---------------------------------------------------------------------
  // Splitting on a separator

  /** Occurrences of `c` in `s`. */
  function Count(s: string, c: char): nat {
    if |s| == 0 then 0 else (if s[0] == c then 1 else 0) + Count(s[1..], c)
  }

  /** A character that occurs is counted at least once. */
  lemma {:induction false} CountIn(s: string, c: char)
    requires c in s
    ensures Count(s, c) >= 1
    decreases |s|
  {
    if s[0] != c {
      assert c in s[1..];
      CountIn(s[1..], c);
    }
  }

  /** `s.split(sep)`: the maximal separator-free runs between separators,
      one more piece than there are separators; "" splits into [""]. */
  function Split(s: string, sep: char): (parts: seq<string>)
    ensures |parts| == Count(s, sep) + 1
    ensures forall i :: 0 <= i < |parts| ==> sep !in parts[i]
    decreases |s|
  {
    if |s| == 0 then [[]]
    else
      var rest := Split(s[1..], sep);
      if s[0] == sep then [[]] + rest
      else [[s[0]] + rest[0]] + rest[1..]
  }

  /** `parts.join(sep)`. */
  function Join(parts: seq<string>, sep: char): string
    requires |parts| >= 1
  {
    if |parts| == 1 then parts[0] else parts[0] + [sep] + Join(parts[1..], sep)
  }

  /** Splitting loses nothing: joining the pieces gives the text back. */
  lemma {:induction false} JoinSplit(s: string, sep: char)
    ensures Join(Split(s, sep), sep) == s
    decreases |s|
  {
    if |s| > 0 {
      JoinSplit(s[1..], sep);
      var rest := Split(s[1..], sep);
      if s[0] == sep {
        assert Split(s, sep)[1..] == rest;
      } else {
        var parts := Split(s, sep);
        if |rest| > 1 {
          assert parts[1..] == rest[1..];
        }
      }
    }
  }

  /** A separator-free first piece comes back first. */
  lemma {:induction false} SplitPrefix(a: string, sep: char, b: string)
    requires sep !in a
    ensures Split(a + [sep] + b, sep) == [a] + Split(b, sep)
    decreases |a|
  {
    if |a| == 0 {
      assert a + [sep] + b == [sep] + b;
      assert ([sep] + b)[1..] == b;
    } else {
      assert (a + [sep] + b)[1..] == a[1..] + [sep] + b;
      SplitPrefix(a[1..], sep, b);
      assert [a[0]] + a[1..] == a;
    }
  }

  /** Separator-free pieces survive joining and splitting unchanged. */
  lemma {:induction false} SplitJoin(parts: seq<string>, sep: char)
    requires |parts| >= 1
    requires forall i :: 0 <= i < |parts| ==> sep !in parts[i]
    ensures Split(Join(parts, sep), sep) == parts
    decreases |parts|
  {
    if |parts| > 1 {
      SplitJoin(parts[1..], sep);
      SplitPrefix(parts[0], sep, Join(parts[1..], sep));
    } else {
      SplitWhole(parts[0], sep);
    }
  }

  /** Every character of a piece is a character of the text: a property of
      all the text's characters holds of the pieces' characters. */
  lemma {:induction false} SplitKeeps(s: string, sep: char, ok: char -> bool)
    requires forall k :: 0 <= k < |s| ==> ok(s[k])
    ensures forall i, k :: 0 <= i < |Split(s, sep)| && 0 <= k < |Split(s, sep)[i]| ==> ok(Split(s, sep)[i][k])
    decreases |s|
  {
    if |s| > 0 {
      SplitKeeps(s[1..], sep, ok);
      var rest := Split(s[1..], sep);
      var parts := Split(s, sep);
      if s[0] != sep {
        forall i, k | 0 <= i < |parts| && 0 <= k < |parts[i]|
          ensures ok(parts[i][k])
        {
          if i == 0 {
            if k > 0 {
              assert parts[0][k] == rest[0][k - 1];
            }
          } else {
            assert parts[i] == rest[i];
          }
        }
      } else {
        forall i, k | 0 <= i < |parts| && 0 <= k < |parts[i]|
          ensures ok(parts[i][k])
        {
          assert parts[i] == rest[i - 1];
        }
      }
    }
  }

  /** Text without a separator is one piece. */
  lemma {:induction false} SplitWhole(s: string, sep: char)
    requires sep !in s
    ensures Split(s, sep) == [s]
    decreases |s|
  {
    if |s| > 0 {
      SplitWhole(s[1..], sep);
      assert [s[0]] + s[1..] == s;
    }
  }

  // ---------------------------------------------------------------------
  // Removing CSS wrapper tokens

  /** Global replacement by "" of `(name)a(`, `(name)(`, `(`, `)` and, when
      `percent` holds, `%`: the pattern `(rgba?)?\(|\)` for "rgb" and
      `(hsla?)?\(|\)|%` for "hsl". Matching is case-sensitive and proceeds
      left to right, the longest alternative first. */
  function StripWrapper(s: string, name: string, percent: bool): (r: string)
    ensures '(' !in r && ')' !in r
    ensures percent ==> '%' !in r
    ensures |r| <= |s|
    decreases |s|
  {
    if |s| == 0 then []
    else if name + "a(" <= s then StripWrapper(s[|name| + 2..], name, percent)
    else if name + "(" <= s then StripWrapper(s[|name| + 1..], name, percent)
    else if s[0] == '(' || s[0] == ')' || (percent && s[0] == '%') then StripWrapper(s[1..], name, percent)
    else [s[0]] + StripWrapper(s[1..], name, percent)
  }

  /** Text with nothing the pattern can match. */
  predicate WrapperFree(s: string, percent: bool) {
    '(' !in s && ')' !in s && (percent ==> '%' !in s)
  }

  /** Text the pattern cannot match is left as it is. */
  lemma {:induction false} StripClean(s: string, name: string, percent: bool)
    requires WrapperFree(s, percent)
    ensures StripWrapper(s, name, percent) == s
    decreases |s|
  {
    if |s| > 0 {
      assert !(name + "a(" <= s) by {
        assert |s| <= |name| + 1 || s[|name| + 1] != '(';
      }
      assert !(name + "(" <= s) by {
        assert |s| <= |name| || s[|name|] != '(';
      }
      StripClean(s[1..], name, percent);
      assert [s[0]] + s[1..] == s;
    }
  }

  /** Stripping twice is stripping once. */
  lemma StripIdempotent(s: string, name: string, percent: bool)
    ensures StripWrapper(StripWrapper(s, name, percent), name, percent) == StripWrapper(s, name, percent)
  {
    StripClean(StripWrapper(s, name, percent), name, percent);
  }

  /** A closing parenthesis at the end of text without an opening one is
      removed and changes nothing else. */
  lemma {:induction false} StripClose(s: string, name: string, percent: bool)
    requires '(' !in s
    ensures StripWrapper(s + ")", name, percent) == StripWrapper(s, name, percent)
    decreases |s|
  {
    var t := s + ")";
    if |s| == 0 {
      assert !(name + "a(" <= t);
      assert !(name + "(" <= t);
      assert t[1..] == [];
    } else {
      assert !(name + "a(" <= t) by {
        assert |t| <= |name| + 1 || t[|name| + 1] != '(';
      }
      assert !(name + "(" <= t) by {
        assert |t| <= |name| || t[|name|] != '(';
      }
      assert !(name + "a(" <= s) by {
        assert |s| <= |name| + 1 || s[|name| + 1] != '(';
      }
      assert !(name + "(" <= s) by {
        assert |s| <= |name| || s[|name|] != '(';
      }
      assert t[1..] == s[1..] + ")";
      StripClose(s[1..], name, percent);
    }
  }

  /** The CSS functional notation loses exactly its wrapper: `name(body)`,
      `namea(body)` and `(body)` all strip as `body` alone does. */
  lemma StripFunctional(name: string, body: string, percent: bool)
    requires '(' !in name && '(' !in body
    ensures StripWrapper(name + "(" + body + ")", name, percent) == StripWrapper(body, name, percent)
    ensures StripWrapper(name + "a(" + body + ")", name, percent) == StripWrapper(body, name, percent)
    ensures StripWrapper("(" + body + ")", name, percent) == StripWrapper(body, name, percent)
  {
    var rest := body + ")";
    StripClose(body, name, percent);
    StripNamedOpen(name, rest, percent);
    assert name + "(" + body + ")" == name + "(" + rest;
    StripNamedAOpen(name, rest, percent);
    assert name + "a(" + body + ")" == name + "a(" + rest;
    StripBareOpen(name, rest, percent);
    assert "(" + body + ")" == "(" + rest;
  }

  /** `name(` at the front is one token. */
  lemma StripNamedOpen(name: string, rest: string, percent: bool)
    requires '(' !in name
    ensures StripWrapper(name + "(" + rest, name, percent) == StripWrapper(rest, name, percent)
  {
    var s := name + "(" + rest;
    assert s[|name|] == '(';
    assert name + "(" <= s;
    assert s[|name| + 1..] == rest;
  }

  /** `namea(` at the front is one token. */
  lemma StripNamedAOpen(name: string, rest: string, percent: bool)
    ensures StripWrapper(name + "a(" + rest, name, percent) == StripWrapper(rest, name, percent)
  {
    var s := name + "a(" + rest;
    assert name + "a(" <= s;
    assert s[|name| + 2..] == rest;
  }

  /** A bare `(` at the front is one token. */
  lemma StripBareOpen(name: string, rest: string, percent: bool)
    requires '(' !in name
    ensures StripWrapper("(" + rest, name, percent) == StripWrapper(rest, name, percent)
  {
    var s := "(" + rest;
    assert s[0] == '(' && s[1..] == rest;
    if |name| == 0 {
      assert !("a(" <= s);
      assert "(" <= s;
    } else {
      assert name[0] != '(';
      assert !(name + "a(" <= s) && !(name + "(" <= s);
    }
  }

  /** `s` with every character `drop` selects removed. */
  function Erase(s: string, drop: char -> bool): (r: string)
    ensures forall i :: 0 <= i < |r| ==> !drop(r[i])
    ensures |r| <= |s|
  {
    if |s| == 0 then []
    else if drop(s[0]) then Erase(s[1..], drop)
    else [s[0]] + Erase(s[1..], drop)
  }

  /** A character that is not dropped survives erasure. */
  lemma {:induction false} EraseKeeps(s: string, drop: char -> bool, c: char)
    requires c in s && !drop(c)
    ensures c in Erase(s, drop)
    decreases |s|
  {
    if s[0] == c {
      assert Erase(s, drop)[0] == c;
    } else {
      assert c in s[1..];
      EraseKeeps(s[1..], drop, c);
      assert Erase(s, drop) == Erase(s[1..], drop) || Erase(s, drop) == [s[0]] + Erase(s[1..], drop);
    }
  }

  /** Erasing distributes over concatenation. */
  lemma {:induction false} EraseAppend(a: string, b: string, drop: char -> bool)
    ensures Erase(a + b, drop) == Erase(a, drop) + Erase(b, drop)
    decreases |a|
  {
    if |a| == 0 {
      assert a + b == b;
    } else {
      assert (a + b)[1..] == a[1..] + b;
      EraseAppend(a[1..], b, drop);
    }
  }

  /** Text with nothing to erase is left as it is. */
  lemma {:induction false} EraseNothing(s: string, drop: char -> bool)
    requires forall i :: 0 <= i < |s| ==> !drop(s[i])
    ensures Erase(s, drop) == s
    decreases |s|
  {
    if |s| > 0 {
      EraseNothing(s[1..], drop);
      assert [s[0]] + s[1..] == s;
    }
  }

  /** Erasing from joined pieces erases from each piece, when the
      separator itself is kept. */
  lemma {:induction false} EraseAcrossJoin(pieces: seq<string>, erased: seq<string>, sep: char, drop: char -> bool)
    requires |pieces| == |erased| >= 1 && !drop(sep)
    requires forall i :: 0 <= i < |pieces| ==> Erase(pieces[i], drop) == erased[i]
    ensures Erase(Join(pieces, sep), drop) == Join(erased, sep)
    decreases |pieces|
  {
    if |pieces| > 1 {
      EraseAcrossJoin(pieces[1..], erased[1..], sep, drop);
      EraseAppend(pieces[0] + [sep], Join(pieces[1..], sep), drop);
      EraseAppend(pieces[0], [sep], drop);
      assert Erase([sep], drop) == [sep] by {
        assert [sep][1..] == [];
      }
    }
  }

  predicate IsPercentSign(c: char) { c == '%' }

  /** Without parentheses there is no token to match but `%`: stripping
      removes the percent signs, if asked to, and nothing else. */
  lemma {:induction false} StripParenFree(s: string, name: string, percent: bool)
    requires '(' !in s && ')' !in s
    ensures StripWrapper(s, name, percent) == (if percent then Erase(s, IsPercentSign) else s)
    decreases |s|
  {
    if |s| > 0 {
      assert !(name + "a(" <= s) by {
        assert |s| <= |name| + 1 || s[|name| + 1] != '(';
      }
      assert !(name + "(" <= s) by {
        assert |s| <= |name| || s[|name|] != '(';
      }
      StripParenFree(s[1..], name, percent);
      assert [s[0]] + s[1..] == s;
    }
  }

  // ---------------------------------------------------------------------
  // Number(text) for decimal literals

  /** JavaScript white space and line terminators, the characters that both
      the regular-expression class `\s` and `Number`'s trimming accept: tab,
      vertical tab, form feed, line feed, carriage return, U+2028, U+2029,
      U+FEFF and the Unicode space separators (Zs). */
  predicate IsSpace(c: char) {
    c == '\t' || c == '\n' || c == '\r' || c == '\U{000B}' || c == '\U{000C}'
    || c == '\U{FEFF}' || c == '\U{2028}' || c == '\U{2029}'
    || IsSpaceSeparator(c)
  }

  /** The Unicode general category Zs. */
  predicate IsSpaceSeparator(c: char) {
    c == ' ' || c == '\U{00A0}' || c == '\U{1680}' || '\U{2000}' <= c <= '\U{200A}'
    || c == '\U{202F}' || c == '\U{205F}' || c == '\U{3000}'
  }

  function TrimStart(s: string): (r: string)
    ensures |r| <= |s|
    ensures r == [] || !IsSpace(r[0])
    decreases |s|
  {
    if |s| > 0 && IsSpace(s[0]) then TrimStart(s[1..]) else s
  }

  function TrimEnd(s: string): (r: string)
    ensures |r| <= |s|
    ensures r == [] || !IsSpace(r[|r| - 1])
    decreases |s|
  {
    if |s| > 0 && IsSpace(s[|s| - 1]) then TrimEnd(s[..|s| - 1]) else s
  }

  /** `s.trim()`. */
  function Trim(s: string): string {
    TrimEnd(TrimStart(s))
  }

  predicate IsDigit(c: char) { '0' <= c <= '9' }

  predicate AllDigits(s: string) {
    forall i :: 0 <= i < |s| ==> IsDigit(s[i])
  }

  function DigitValue(c: char): nat
    requires IsDigit(c)
  {
    (c as int - '0' as int) as nat
  }

  /** The whole number a digit string denotes, most significant first. */
  function DigitsValue(ds: string): (v: nat)
    requires AllDigits(ds)
    ensures v < Pow10(|ds|)
  {
    if |ds| == 0 then 0 else 10 * DigitsValue(ds[..|ds| - 1]) + DigitValue(ds[|ds| - 1])
  }

  /** The value of the digits after a decimal point: 0.d₁d₂… */
  function FractionValue(ds: string): (f: real)
    requires AllDigits(ds)
    ensures 0.0 <= f < 1.0
  {
    if |ds| == 0 then 0.0 else (DigitValue(ds[0]) as real + FractionValue(ds[1..])) / 10.0
  }

  /** The result of `Number(text)`: a number or NaN. */
  datatype Num = Finite(value: real) | NaN

  /** Position of the first `c` in `s`, or |s|. */
  function IndexOf(s: string, c: char): (i: nat)
    ensures i <= |s|
    ensures i == |s| <==> c !in s
    ensures c !in s[..i]
    ensures i < |s| ==> s[i] == c
  {
    if |s| == 0 then 0
    else if s[0] == c then 0
    else
      assert s[..1 + IndexOf(s[1..], c)] == [s[0]] + s[1..][..IndexOf(s[1..], c)];
      1 + IndexOf(s[1..], c)
  }

  /** An unsigned decimal literal: digits, optionally a point and more
      digits, with at least one digit in all. */
  function UnsignedValue(b: string): (r: Option<real>)
    ensures r.Some? ==> r.value >= 0.0
  {
    var i := IndexOf(b, '.');
    if i < |b| then LiteralValue(b[..i], b[i + 1..]) else LiteralValue(b, [])
  }

  /** The value of `whole.frac` when both are digit strings, not both empty. */
  function LiteralValue(whole: string, frac: string): (r: Option<real>)
    ensures r.Some? ==> r.value >= 0.0
    ensures r.Some? <==> AllDigits(whole) && AllDigits(frac) && |whole| + |frac| > 0
  {
    if AllDigits(whole) && AllDigits(frac) && |whole| + |frac| > 0 then
      Some(DigitsValue(whole) as real + FractionValue(frac))
    else None
  }

  /** An accepted literal holds only digits and the point. */
  lemma UnsignedChars(b: string)
    ensures UnsignedValue(b).Some? ==> forall k :: 0 <= k < |b| ==> IsDigit(b[k]) || b[k] == '.'
  {
    var i := IndexOf(b, '.');
    if UnsignedValue(b).Some? && i < |b| {
      var whole := b[..i];
      var frac := b[i + 1..];
      forall k | 0 <= k < |b|
        ensures IsDigit(b[k]) || b[k] == '.'
      {
        if k < i {
          assert b[k] == whole[k];
        } else if k > i {
          assert b[k] == frac[k - i - 1];
        }
      }
    }
  }

  /** `Number(text)` restricted to decimal literals: surrounding white space
      is ignored, blank text is 0, an optional sign precedes an unsigned
      decimal literal, and anything else is NaN. */
  function ParseNumber(s: string): (n: Num)
    ensures Trim(s) == [] ==> n == Finite(0.0)
    ensures n.Finite? && Trim(s) != [] ==>
      forall i :: 0 <= i < |Trim(s)| ==> IsDigit(Trim(s)[i]) || Trim(s)[i] in "+-."
  {
    ParseTrimmed(Trim(s))
  }

  /** `Number` on text already stripped of surrounding white space. */
  function ParseTrimmed(t: string): (n: Num)
    ensures t == [] ==> n == Finite(0.0)
    ensures n.Finite? && t != [] ==> forall i :: 0 <= i < |t| ==> IsDigit(t[i]) || t[i] in "+-."
  {
    if t == [] then Finite(0.0)
    else
      var negative := t[0] == '-';
      var body := if t[0] == '-' || t[0] == '+' then t[1..] else t;
      assert forall i :: 0 <= i < |body| ==> body[i] == t[i + |t| - |body|];
      UnsignedChars(body);
      match UnsignedValue(body)
      case None => NaN
      case Some(v) => Finite(if negative then -v else v)
  }

  function DigitChar(d: nat): (c: char)
    requires d < 10
    ensures IsDigit(c) && DigitValue(c) == d
  {
    ('0' as int + d) as char
  }

  /** The decimal rendering of a whole number, without leading zeros. */
  function NatToString(n: nat): (s: string)
    ensures |s| >= 1 && AllDigits(s)
    ensures DigitsValue(s) == n
  {
    if n < 10 then
      assert [DigitChar(n)][..0] == [];
      [DigitChar(n)]
    else
      var s := NatToString(n / 10) + [DigitChar(n % 10)];
      assert s[..|s| - 1] == NatToString(n / 10);
      s
  }

  /** Text without white space at either end is not trimmed. */
  lemma TrimUnpadded(s: string)
    requires |s| >= 1 && !IsSpace(s[0]) && !IsSpace(s[|s| - 1])
    ensures Trim(s) == s
  {
    assert TrimStart(s) == s;
  }

  /** `Number` reads back what the decimal rendering writes: the rendering
      of n parses to n, and with a minus sign in front to -n. */
  lemma ParseNatToString(n: nat)
    ensures ParseNumber(NatToString(n)) == Finite(n as real)
    ensures ParseNumber("-" + NatToString(n)) == Finite(-(n as real))
  {
    var s := NatToString(n);
    TrimUnpadded(s);
    UnsignedDigits(s);
    var t := "-" + s;
    assert TrimStart(t) == t;
    assert t[|t| - 1] == s[|s| - 1];
    assert Trim(t) == t;
    assert t[1..] == s;
  }

  /** A plain digit string is an unsigned literal worth its digits. */
  lemma UnsignedDigits(s: string)
    requires |s| >= 1 && AllDigits(s)
    ensures UnsignedValue(s) == Some(DigitsValue(s) as real)
  {
    assert IndexOf(s, '.') == |s| by {
      assert forall k :: 0 <= k < |s| ==> s[k] != '.';
    }
    assert UnsignedValue(s) == LiteralValue(s, []);
    assert LiteralValue(s, []) == Some(DigitsValue(s) as real) by {
      assert FractionValue([]) == 0.0;
    }
  }

  /** White space around the literal makes no difference. */
  lemma ParsePadded(s: string)
    ensures ParseNumber(" " + s) == ParseNumber(s)
    ensures ParseNumber(s + " ") == ParseNumber(s)
  {
    TrimPadded(s);
  }

  lemma TrimPadded(s: string)
    ensures Trim(" " + s) == Trim(s)
    ensures Trim(s + " ") == Trim(s)
  {
    assert (" " + s)[1..] == s;
    TrimEndSpace(TrimStart(s));
    TrimStartAppendSpace(s);
  }

  lemma TrimEndSpace(s: string)
    ensures TrimEnd(s + " ") == TrimEnd(s)
  {
    assert (s + " ")[..|s|] == s;
  }

  /** Trimming the start of `s + " "` is trimming the start of `s` and
      adding the space, unless `s` is all white space. */
  lemma {:induction false} TrimStartAppendSpace(s: string)
    ensures TrimEnd(TrimStart(s + " ")) == TrimEnd(TrimStart(s))
    decreases |s|
  {
    if |s| == 0 {
      assert TrimStart(" ") == TrimStart(" "[1..]);
    } else if IsSpace(s[0]) {
      assert (s + " ")[1..] == s[1..] + " ";
      TrimStartAppendSpace(s[1..]);
    } else {
      TrimEndSpace(s);
    }
  }

  /** The worked value "50.2" reads as 50.2. */
  lemma ParseExampleWhole()
    ensures ParseNumber("50.2") == Finite(50.2)
  {
    assert ParseNumber("50" + "." + "2") == Finite(50.2) by {
      assert DigitsValue("50") == 50 by {
        assert "50"[..1] == "5";
        assert "5"[..0] == "";
      }
      assert FractionValue("2") == 0.2 by {
        assert "2"[1..] == "";
      }
      ParseDecimal("50", "2");
    }
    assert "50" + "." + "2" == "50.2";
  }

  /** The worked value " 0.5" reads as 0.5: the space is ignored. */
  lemma ParseExampleSpaced()
    ensures ParseNumber(" 0.5") == Finite(0.5)
  {
    assert ParseNumber(" " + "0.5") == Finite(0.5) by {
      ParseExampleHalf();
      ParsePadded("0.5");
    }
    assert " " + "0.5" == " 0.5";
  }

  lemma ParseExampleHalf()
    ensures ParseNumber("0.5") == Finite(0.5)
  {
    assert ParseNumber("0" + "." + "5") == Finite(0.5) by {
      assert DigitsValue("0") == 0 by {
        assert "0"[..0] == "";
      }
      assert FractionValue("5") == 0.5 by {
        assert "5"[1..] == "";
      }
      ParseDecimal("0", "5");
    }
    assert "0" + "." + "5" == "0.5";
  }

  /** A plain digit string reads as the whole number it denotes. */
  lemma ParseDigits(ds: string)
    requires |ds| >= 1 && AllDigits(ds)
    ensures ParseNumber(ds) == Finite(DigitsValue(ds) as real)
  {
    TrimUnpadded(ds);
    UnsignedDigits(ds);
  }

  /** The worked hue "128" reads as 128. */
  lemma ParseExampleHue()
    ensures ParseNumber("128") == Finite(128.0)
  {
    assert DigitsValue("128") == 128 by {
      assert "128"[..2] == "12";
      assert "12"[..1] == "1";
      assert "1"[..0] == "";
    }
    ParseDigits("128");
  }

  /** The worked percentages " 50" and " 60" read as 50 and 60. */
  lemma ParseExampleFifty()
    ensures ParseNumber(" 50") == Finite(50.0)
  {
    assert ParseNumber(" " + "50") == Finite(50.0) by {
      assert DigitsValue("50") == 50 by {
        assert "50"[..1] == "5";
        assert "5"[..0] == "";
      }
      ParseDigits("50");
      ParsePadded("50");
    }
    assert " " + "50" == " 50";
  }

  lemma ParseExampleSixty()
    ensures ParseNumber(" 60") == Finite(60.0)
  {
    assert ParseNumber(" " + "60") == Finite(60.0) by {
      assert DigitsValue("60") == 60 by {
        assert "60"[..1] == "6";
        assert "6"[..0] == "";
      }
      ParseDigits("60");
      ParsePadded("60");
    }
    assert " " + "60" == " 60";
  }

  /** The worked alpha " 0.7" reads as 0.7. */
  lemma ParseExampleAlpha()
    ensures ParseNumber(" 0.7") == Finite(0.7)
  {
    assert ParseNumber(" " + ("0" + "." + "7")) == Finite(0.7) by {
      assert DigitsValue("0") == 0 by {
        assert "0"[..0] == "";
      }
      assert FractionValue("7") == 0.7 by {
        assert "7"[1..] == "";
      }
      ParseDecimal("0", "7");
      ParsePadded("0" + "." + "7");
    }
    assert " " + ("0" + "." + "7") == " 0.7";
  }

  /** A literal `whole.frac` of digits reads as whole + 0.frac. */
  lemma ParseDecimal(whole: string, frac: string)
    requires |whole| >= 1 && AllDigits(whole) && AllDigits(frac)
    ensures ParseNumber(whole + "." + frac) == Finite(DigitsValue(whole) as real + FractionValue(frac))
  {
    DecimalTrimmed(whole, frac);
    DecimalSplit(whole, frac);
    ParseUnsigned(whole + "." + frac);
  }

  lemma DecimalTrimmed(whole: string, frac: string)
    requires |whole| >= 1 && AllDigits(whole) && AllDigits(frac)
    ensures Trim(whole + "." + frac) == whole + "." + frac
    ensures IsDigit((whole + "." + frac)[0])
  {
    var t := whole + "." + frac;
    assert !IsSpace(t[|t| - 1]) by {
      if |frac| > 0 {
        assert t[|t| - 1] == frac[|frac| - 1];
      }
    }
    TrimUnpadded(t);
  }

  /** The point splits a decimal literal into its whole and fractional
      digits. */
  lemma DecimalSplit(whole: string, frac: string)
    requires AllDigits(whole) && AllDigits(frac) && |whole| >= 1
    ensures UnsignedValue(whole + "." + frac) == Some(DigitsValue(whole) as real + FractionValue(frac))
  {
    assert '.' !in whole by {
      assert forall k :: 0 <= k < |whole| ==> whole[k] != '.';
    }
    PointSplit(whole, frac);
    LiteralDigits(whole, frac);
  }

  lemma LiteralDigits(whole: string, frac: string)
    requires AllDigits(whole) && AllDigits(frac) && |whole| >= 1
    ensures LiteralValue(whole, frac) == Some(DigitsValue(whole) as real + FractionValue(frac))
  {
  }

  lemma PointSplit(whole: string, frac: string)
    requires '.' !in whole
    ensures UnsignedValue(whole + "." + frac) == LiteralValue(whole, frac)
  {
    var rest := "." + frac;
    var t := whole + rest;
    assert whole + "." + frac == t;
    IndexOfAppend(whole, '.', rest);
    assert IndexOf(rest, '.') == 0;
    assert t[..|whole|] == whole;
    assert t[|whole| + 1..] == rest[1..] == frac;
  }

  /** Text that is already trimmed and starts with a digit reads as its
      unsigned literal. */
  lemma ParseUnsigned(t: string)
    requires |t| >= 1 && Trim(t) == t && IsDigit(t[0])
    ensures ParseNumber(t) == (match UnsignedValue(t) case None => NaN case Some(v) => Finite(v))
  {
  }

  lemma {:induction false} IndexOfAppend(a: string, c: char, b: string)
    requires c !in a
    ensures IndexOf(a + b, c) == |a| + IndexOf(b, c)
    decreases |a|
  {
    if |a| > 0 {
      assert (a + b)[1..] == a[1..] + b;
      IndexOfAppend(a[1..], c, b);
    } else {
      assert a + b == b;
    }
  }

  /** A character other than a digit, a sign or the point makes NaN. */
  lemma NotNumeric(s: string, i: nat)
    requires i < |Trim(s)| && !IsDigit(Trim(s)[i]) && Trim(s)[i] !in "+-."
    ensures ParseNumber(s) == NaN
  {
  }

  /** Blank text reads as 0; letters and a percent sign make NaN. */
  lemma ParseOddExamples()
    ensures ParseNumber("") == Finite(0.0)
    ensures ParseNumber("abc") == NaN
    ensures ParseNumber("5%") == NaN
  {
    ParseLetters();
    ParsePercentSign();
  }

  lemma ParseLetters()
    ensures ParseNumber("abc") == NaN
  {
    assert Trim("abc") == "abc" by {
      assert TrimStart("abc") == "abc";
    }
    NotNumeric("abc", 0);
  }

  lemma ParsePercentSign()
    ensures ParseNumber("5%") == NaN
  {
    assert Trim("5%") == "5%" by {
      assert TrimStart("5%") == "5%";
    }
    NotNumeric("5%", 1);
  }

  // ---------------------------------------------------------------------
  // Scanning a hex body with \w

  /** `\w`: an ASCII letter, digit or underscore. */
  predicate IsWord(c: char) {
    'a' <= c <= 'z' || 'A' <= c <= 'Z' || '0' <= c <= '9' || c == '_'
  }

  predicate AllWord(s: string) {
    forall i :: 0 <= i < |s| ==> IsWord(s[i])
  }

  /** Some two neighbouring characters are both word characters. */
  predicate HasWordPair(s: string) {
    exists i :: 0 <= i < |s| - 1 && IsWord(s[i]) && IsWord(s[i + 1])
  }

  /** `s.match(/\w\w/g)` as a list (empty for no match): scanning left to
      right, two word characters in a row are taken together; otherwise the
      scan moves on by one character. */
  function WordPairs(s: string): (parts: seq<string>)
    ensures forall i :: 0 <= i < |parts| ==> |parts[i]| == 2 && AllWord(parts[i])
    ensures |parts| <= |s| / 2
    decreases |s|
  {
    if |s| < 2 then []
    else if IsWord(s[0]) && IsWord(s[1]) then [s[..2]] + WordPairs(s[2..])
    else WordPairs(s[1..])
  }

  /** The scan finds nothing exactly when no two neighbours are word
      characters. */
  lemma {:induction false} WordPairsEmpty(s: string)
    ensures WordPairs(s) == [] <==> !HasWordPair(s)
    decreases |s|
  {
    if |s| >= 2 && !(IsWord(s[0]) && IsWord(s[1])) {
      WordPairsEmpty(s[1..]);
      if HasWordPair(s) {
        var i :| 0 <= i < |s| - 1 && IsWord(s[i]) && IsWord(s[i + 1]);
        assert i > 0;
        assert IsWord(s[1..][i - 1]) && IsWord(s[1..][i]);
      }
      if HasWordPair(s[1..]) {
        var i :| 0 <= i < |s[1..]| - 1 && IsWord(s[1..][i]) && IsWord(s[1..][i + 1]);
        assert IsWord(s[i + 1]) && IsWord(s[i + 2]);
      }
    } else if |s| >= 2 {
      assert IsWord(s[0]) && IsWord(s[1]);
    }
  }

  /** Concatenation of a list of strings. */
  function Concat(parts: seq<string>): string {
    if |parts| == 0 then [] else parts[0] + Concat(parts[1..])
  }

  /** On a body of word characters the pairs are the body cut in twos: they
      give the body back when its length is even and drop the last
      character when it is odd. */
  lemma {:induction false} WordPairsCut(s: string)
    requires AllWord(s)
    ensures |WordPairs(s)| == |s| / 2
    ensures Concat(WordPairs(s)) == s[..|s| - |s| % 2]
    decreases |s|
  {
    if |s| >= 2 {
      WordPairsCut(s[2..]);
      var rest := WordPairs(s[2..]);
      assert WordPairs(s)[1..] == rest;
      assert s[..2] + s[2..][..|s[2..]| - |s[2..]| % 2] == s[..|s| - |s| % 2];
    } else {
      assert s[..|s| - |s| % 2] == [];
    }
  }

  /** `s.match(/\w/g)` as a list of characters. */
  function WordChars(s: string): (w: string)
    ensures AllWord(w) && |w| <= |s|
    ensures w == [] <==> forall i :: 0 <= i < |s| ==> !IsWord(s[i])
    ensures AllWord(s) ==> w == s
  {
    if |s| == 0 then []
    else if IsWord(s[0]) then
      assert AllWord(s) ==> AllWord(s[1..]) by {
        assert forall i :: 1 <= i < |s| ==> s[i] == s[1..][i - 1];
      }
      [s[0]] + WordChars(s[1..])
    else
      assert forall i :: 1 <= i < |s| ==> s[i] == s[1..][i - 1];
      WordChars(s[1..])
  }

  /** Each character written twice: `item.repeat(2)`. */
  function Doubled(w: string): (parts: seq<string>)
    ensures |parts| == |w|
    ensures forall i :: 0 <= i < |w| ==> parts[i] == [w[i], w[i]]
  {
    seq(|w|, i requires 0 <= i < |w| => [w[i], w[i]])
  }

  /** JavaScript's `length`: UTF-16 code units, two for a character beyond
      the Basic Multilingual Plane and one for any other. */
  function Utf16Length(s: string): (n: nat)
    ensures |s| <= n <= 2 * |s|
  {
    if |s| == 0 then 0 else (if s[0] as int >= 0x1_0000 then 2 else 1) + Utf16Length(s[1..])
  }

  /** Word characters are ASCII, so a body of them is as long in UTF-16 as
      it is in characters. */
  lemma {:induction false} Utf16LengthWord(s: string)
    requires AllWord(s)
    ensures Utf16Length(s) == |s|
    decreases |s|
  {
    if |s| > 0 {
      assert AllWord(s[1..]) by {
        assert forall i :: 0 <= i < |s| - 1 ==> s[1..][i] == s[i + 1];
      }
      Utf16LengthWord(s[1..]);
    }
  }

  /** The parts of a `#` body: pairs of word characters when `hex.length`,
      counted in UTF-16 code units, is six or more, each word character
      doubled otherwise; None when the match finds nothing. */
  function HexParts(body: string): (r: Option<seq<string>>)
    ensures r.Some? ==> |r.value| >= 1
    ensures r.Some? ==> forall i :: 0 <= i < |r.value| ==> |r.value[i]| == 2 && AllWord(r.value[i])
    ensures Utf16Length(body) < 6 ==> (r.None? <==> forall i :: 0 <= i < |body| ==> !IsWord(body[i]))
    ensures (forall i :: 0 <= i < |body| ==> !IsWord(body[i])) ==> r.None?
  {
    if Utf16Length(body) >= 6 then
      WordPairsEmpty(body);
      var p := WordPairs(body);
      if p == [] then None else Some(p)
    else
      var w := WordChars(body);
      if w == [] then None else Some(Doubled(w))
  }

  /** The word characters of a concatenation are those of each part, in
      order: the match keeps exactly the word characters and their order. */
  lemma {:induction false} WordCharsAppend(a: string, b: string)
    ensures WordChars(a + b) == WordChars(a) + WordChars(b)
    decreases |a|
  {
    if |a| > 0 {
      assert (a + b)[0] == a[0];
      assert (a + b)[1..] == a[1..] + b;
      WordCharsAppend(a[1..], b);
    } else {
      assert a + b == b;
    }
  }

  /** A short body of word characters has every character doubled. */
  lemma HexPartsShort(body: string)
    requires 0 < |body| < 6 && AllWord(body)
    ensures HexParts(body) == Some(Doubled(body))
  {
    Utf16LengthWord(body);
  }

  /** A long body yields nothing exactly when it has no two neighbouring
      word characters. */
  lemma HexPartsLong(body: string)
    requires Utf16Length(body) >= 6
    ensures HexParts(body).None? <==> !HasWordPair(body)
  {
    WordPairsEmpty(body);
  }

  /** Length is counted in UTF-16 code units: "ab" followed by two
      characters beyond the Basic Multilingual Plane has length 6, so it is
      cut in pairs, giving "ab", rather than doubled. */
  lemma HexPartsAstral()
    ensures Utf16Length("ab\U{1F600}\U{1F600}") == 6
    ensures HexParts("ab\U{1F600}\U{1F600}") == Some(["ab"])
  {
    AstralLength();
    AstralPairs();
  }

  lemma AstralLength()
    ensures Utf16Length("ab\U{1F600}\U{1F600}") == 6
  {
    var s := "ab\U{1F600}\U{1F600}";
    assert s[1..] == "b\U{1F600}\U{1F600}";
    assert s[1..][1..] == "\U{1F600}\U{1F600}";
    assert s[1..][1..][1..] == "\U{1F600}";
    assert s[1..][1..][1..][1..] == "";
  }

  lemma AstralPairs()
    ensures WordPairs("ab\U{1F600}\U{1F600}") == ["ab"]
  {
    var s := "ab\U{1F600}\U{1F600}";
    assert s[..2] == "ab";
    assert s[2..] == "\U{1F600}\U{1F600}";
    assert s[2..][1..] == "\U{1F600}";
    assert s[2..][1..][1..] == "";
  }

  /** The worked shapes: "abc" doubles to "aa", "bb", "cc"; "66778899" cuts
      to "66", "77", "88", "99". */
  lemma HexPartsExamples()
    ensures HexParts("abc") == Some(["aa", "bb", "cc"])
    ensures HexParts("66778899") == Some(["66", "77", "88", "99"])
  {
    ShortExample();
    LongExample();
  }

  /** "abc": three word characters, each doubled. */
  lemma ShortExample()
    ensures WordChars("abc") == "abc"
    ensures Doubled("abc") == ["aa", "bb", "cc"]
  {
    assert WordChars("abc") == "abc" by {
      assert "abc"[1..] == "bc";
      assert "bc"[1..] == "c";
      assert "c"[1..] == "";
    }
    var d := Doubled("abc");
    assert d[0] == "aa" && d[1] == "bb" && d[2] == "cc";
  }

  /** "66778899": four pairs, in order. */
  lemma LongExample()
    ensures WordPairs("66778899") == ["66", "77", "88", "99"]
  {
    assert WordPairs("99") == ["99"] by {
      assert "99"[..2] == "99" && "99"[2..] == "";
    }
    assert WordPairs("8899") == ["88", "99"] by {
      assert "8899"[..2] == "88" && "8899"[2..] == "99";
    }
    assert WordPairs("778899") == ["77", "88", "99"] by {
      assert "778899"[..2] == "77" && "778899"[2..] == "8899";
    }
    assert "66778899"[..2] == "66" && "66778899"[2..] == "778899";
  }
}
