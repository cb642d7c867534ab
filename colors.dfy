/**
 * The small text codecs of the colour picker and the labels: `escapeHtml`,
 * `normalizeHex`, `adjustBrightness`, and the most-recently-used colour
 * list that `addToRecentColors` maintains.
 */
module Colors {
  import opened Text
  import Records

  // ---------------------------------------------------------------------
  // escapeHtml
  // ---------------------------------------------------------------------

  /** `escapeHtml`: five global replaces, the ampersand first. */
  function EscapeHtml(s: string): string
  {
    ReplaceAll(ReplaceAll(ReplaceAll(ReplaceAll(ReplaceAll(s, '&', "&amp;"), '<', "&lt;"), '>', "&gt;"),
                          '"', "&quot;"), '\'', "&#039;")
  }

  /** What one character becomes. */
  function EscChar(c: char): string
  {
    if c == '&' then "&amp;"
    else if c == '<' then "&lt;"
    else if c == '>' then "&gt;"
    else if c == '"' then "&quot;"
    else if c == '\'' then "&#039;"
    else [c]
  }

  /** The character-by-character reading of the escape. */
  function EscapeEach(s: string): string
  {
    if s == [] then [] else EscChar(s[0]) + EscapeEach(s[1..])
  }

  lemma {:induction false} EscapeHtmlAppend(a: string, b: string)
    ensures EscapeHtml(a + b) == EscapeHtml(a) + EscapeHtml(b)
  {
    var a1, b1 := ReplaceAll(a, '&', "&amp;"), ReplaceAll(b, '&', "&amp;");
    ReplaceAllAppend(a, b, '&', "&amp;");
    var a2, b2 := ReplaceAll(a1, '<', "&lt;"), ReplaceAll(b1, '<', "&lt;");
    ReplaceAllAppend(a1, b1, '<', "&lt;");
    var a3, b3 := ReplaceAll(a2, '>', "&gt;"), ReplaceAll(b2, '>', "&gt;");
    ReplaceAllAppend(a2, b2, '>', "&gt;");
    var a4, b4 := ReplaceAll(a3, '"', "&quot;"), ReplaceAll(b3, '"', "&quot;");
    ReplaceAllAppend(a3, b3, '"', "&quot;");
    ReplaceAllAppend(a4, b4, '\'', "&#039;");
  }

  lemma {:induction false} ReplaceAllMiss(s: string, x: char, r: string)
    requires x !in s
    ensures ReplaceAll(s, x, r) == s
  {
    if s != [] {
      assert s[0] != x && x !in s[1..];
      ReplaceAllMiss(s[1..], x, r);
    }
  }

  lemma {:induction false} ReplaceAllOne(c: char, x: char, r: string)
    ensures ReplaceAll([c], x, r) == if c == x then r else [c]
  {
    assert [c][1..] == [];
  }

  /** A character none of the replaces looks for is kept. */
  lemma {:induction false} EscapeHtmlPlain(c: char)
    requires c != '&' && c != '<' && c != '>' && c != '"' && c != '\''
    ensures EscapeHtml([c]) == [c]
  {
    ReplaceAllOne(c, '&', "&amp;");
    ReplaceAllOne(c, '<', "&lt;");
    ReplaceAllOne(c, '>', "&gt;");
    ReplaceAllOne(c, '"', "&quot;");
    ReplaceAllOne(c, '\'', "&#039;");
  }

  /**
   * Once a character is replaced, the later replaces find nothing in its
   * entity. (The character and the entity are parameters so that the
   * solver does not evaluate the replaces on constant strings.)
   */
  lemma {:induction false} EscapeHtmlAmp(c: char, e: string)
    requires c == '&' && e == "&amp;"
    ensures EscapeHtml([c]) == e
  {
    assert '<' !in e && '>' !in e && '"' !in e && '\'' !in e;
    ReplaceAllOne(c, '&', "&amp;");
    ReplaceAllMiss(e, '<', "&lt;");
    ReplaceAllMiss(e, '>', "&gt;");
    ReplaceAllMiss(e, '"', "&quot;");
    ReplaceAllMiss(e, '\'', "&#039;");
  }

  lemma {:induction false} EscapeHtmlLt(c: char, e: string)
    requires c == '<' && e == "&lt;"
    ensures EscapeHtml([c]) == e
  {
    assert '>' !in e && '"' !in e && '\'' !in e;
    ReplaceAllOne(c, '&', "&amp;");
    ReplaceAllOne(c, '<', "&lt;");
    ReplaceAllMiss(e, '>', "&gt;");
    ReplaceAllMiss(e, '"', "&quot;");
    ReplaceAllMiss(e, '\'', "&#039;");
  }

  lemma {:induction false} EscapeHtmlGt(c: char, e: string)
    requires c == '>' && e == "&gt;"
    ensures EscapeHtml([c]) == e
  {
    assert '"' !in e && '\'' !in e;
    ReplaceAllOne(c, '&', "&amp;");
    ReplaceAllOne(c, '<', "&lt;");
    ReplaceAllOne(c, '>', "&gt;");
    ReplaceAllMiss(e, '"', "&quot;");
    ReplaceAllMiss(e, '\'', "&#039;");
  }

  lemma {:induction false} EscapeHtmlQuot(c: char, e: string)
    requires c == '"' && e == "&quot;"
    ensures EscapeHtml([c]) == e
  {
    assert '\'' !in e;
    ReplaceAllOne(c, '&', "&amp;");
    ReplaceAllOne(c, '<', "&lt;");
    ReplaceAllOne(c, '>', "&gt;");
    ReplaceAllOne(c, '"', "&quot;");
    ReplaceAllMiss(e, '\'', "&#039;");
  }

  lemma {:induction false} EscapeHtmlApos(c: char, e: string)
    requires c == '\'' && e == "&#039;"
    ensures EscapeHtml([c]) == e
  {
    ReplaceAllOne(c, '&', "&amp;");
    ReplaceAllOne(c, '<', "&lt;");
    ReplaceAllOne(c, '>', "&gt;");
    ReplaceAllOne(c, '"', "&quot;");
    ReplaceAllOne(c, '\'', "&#039;");
  }

  /** A replacement never holds a character a later replace looks for. */
  lemma {:induction false} EscapeHtmlChar(c: char)
    ensures EscapeHtml([c]) == EscChar(c)
  {
    if c == '&' {
      EscapeHtmlAmp(c, EscChar(c));
    } else if c == '<' {
      EscapeHtmlLt(c, EscChar(c));
    } else if c == '>' {
      EscapeHtmlGt(c, EscChar(c));
    } else if c == '"' {
      EscapeHtmlQuot(c, EscChar(c));
    } else if c == '\'' {
      EscapeHtmlApos(c, EscChar(c));
    } else {
      EscapeHtmlPlain(c);
    }
  }

  /** The five sequential replaces escape each character on its own. */
  lemma {:induction false} EscapeHtmlEach(s: string)
    ensures EscapeHtml(s) == EscapeEach(s)
  {
    if s == [] {
    } else {
      assert s == [s[0]] + s[1..];
      EscapeHtmlAppend([s[0]], s[1..]);
      EscapeHtmlChar(s[0]);
      EscapeHtmlEach(s[1..]);
    }
  }

  /** The browser's reading of the five entities, the partner of the escape. */
  function UnescapeHtml(t: string): string
    decreases |t|
  {
    if t == [] then []
    else if "&amp;" <= t then "&" + UnescapeHtml(t[5..])
    else if "&lt;" <= t then "<" + UnescapeHtml(t[4..])
    else if "&gt;" <= t then ">" + UnescapeHtml(t[4..])
    else if "&quot;" <= t then "\"" + UnescapeHtml(t[6..])
    else if "&#039;" <= t then "'" + UnescapeHtml(t[6..])
    else [t[0]] + UnescapeHtml(t[1..])
  }

  lemma {:induction false} UnescapeChar(c: char, rest: string)
    ensures UnescapeHtml(EscChar(c) + rest) == [c] + UnescapeHtml(rest)
  {
    if c == '&' {
      UnescapeEntity("&amp;", c, rest);
    } else if c == '<' {
      UnescapeEntity("&lt;", c, rest);
    } else if c == '>' {
      UnescapeEntity("&gt;", c, rest);
    } else if c == '"' {
      UnescapeEntity("&quot;", c, rest);
    } else if c == '\'' {
      UnescapeEntity("&#039;", c, rest);
    } else {
      var t := [c] + rest;
      assert t[0] == c && t[1..] == rest;
      assert !("&amp;" <= t) && !("&lt;" <= t) && !("&gt;" <= t) && !("&quot;" <= t) && !("&#039;" <= t);
    }
  }

  /** An entity at the front reads back as its character. */
  lemma {:induction false} UnescapeEntity(e: string, c: char, rest: string)
    requires c in "&<>\"'" && e == EscChar(c)
    ensures UnescapeHtml(e + rest) == [c] + UnescapeHtml(rest)
  {
    var t := e + rest;
    assert t[..|e|] == e && t[|e|..] == rest;
    assert t[0] == '&';
    if c == '&' {
      assert "&amp;" <= t;
    } else if c == '<' {
      assert t[1] == 'l' && "&lt;" <= t;
    } else if c == '>' {
      assert t[1] == 'g' && "&gt;" <= t;
    } else if c == '"' {
      assert t[1] == 'q' && "&quot;" <= t;
    } else {
      assert t[1] == '#' && "&#039;" <= t;
    }
  }

  /** Escaping loses nothing: reading the entities back gives the text. */
  lemma {:induction false} UnescapeEscapeHtml(s: string)
    ensures UnescapeHtml(EscapeHtml(s)) == s
  {
    EscapeHtmlEach(s);
    UnescapeEach(s);
  }

  lemma {:induction false} UnescapeEach(s: string)
    ensures UnescapeHtml(EscapeEach(s)) == s
  {
    if s != [] {
      UnescapeChar(s[0], EscapeEach(s[1..]));
      UnescapeEach(s[1..]);
    }
  }

  /** The escaped text holds no markup character and no quote. */
  lemma {:induction false} EscapeHtmlSafe(s: string)
    ensures var r := EscapeHtml(s); '<' !in r && '>' !in r && '"' !in r && '\'' !in r
  {
    EscapeHtmlEach(s);
    EscapeEachSafe(s);
  }

  lemma {:induction false} EscapeEachSafe(s: string)
    ensures var r := EscapeEach(s); '<' !in r && '>' !in r && '"' !in r && '\'' !in r
  {
    if s != [] {
      EscapeEachSafe(s[1..]);
      var e := EscChar(s[0]);
      assert '<' !in e && '>' !in e && '"' !in e && '\'' !in e;
    }
  }

  // ---------------------------------------------------------------------
  // normalizeHex
  // ---------------------------------------------------------------------

  predicate IsHexDigit(c: char) { '0' <= c <= '9' || 'a' <= c <= 'f' || 'A' <= c <= 'F' }

  predicate AllHex(s: string) { forall i :: 0 <= i < |s| ==> IsHexDigit(s[i]) }

  /** No ASCII lower-case letter. */
  predicate NoLower(s: string) { forall i :: 0 <= i < |s| ==> !('a' <= s[i] <= 'z') }

  /** `/^#?[0-9a-fA-F]{3}$/.test(v)`: the short form, with or without its `#`. */
  predicate IsShortHex(v: string)
  {
    (|v| == 3 && AllHex(v)) || (|v| == 4 && v[0] == '#' && AllHex(v[1..]))
  }

  /** `s.replace(x, '')` with a string pattern: only the first `x` goes. */
  function RemoveFirst(s: string, x: char): (r: string)
    ensures x !in s ==> r == s
    ensures |s| > 0 && s[0] == x ==> r == s[1..]
  {
    if s == [] then []
    else if s[0] == x then s[1..]
    else [s[0]] + RemoveFirst(s[1..], x)
  }

  /** `s.split('').map(ch => ch + ch).join('')`. */
  function Doubled(s: string): (r: string)
    ensures |r| == 2 * |s|
    ensures forall i :: 0 <= i < |s| ==> r[2 * i] == s[i] && r[2 * i + 1] == s[i]
  {
    if s == [] then [] else [s[0], s[0]] + Doubled(s[1..])
  }

  /**
   * `normalizeHex`: empty stays empty; the short form `#abc` or `abc`
   * becomes `#AABBCC`; anything else gets a leading `#` if it lacks one and
   * is upper-cased. Note that only the empty string is falsy: a blank
   * string becomes `#`.
   */
  function NormalizeHex(hex: string): (r: string)
    ensures r == [] <==> hex == []
    ensures r != [] ==> r[0] == '#' && NoLower(r)
  {
    if hex == [] then []
    else
      var v := Trim(hex);
      if IsShortHex(v) then
        UpperNoLower(Doubled(RemoveFirst(v, '#')));
        "#" + UpperAscii(Doubled(RemoveFirst(v, '#')))
      else
        var w := if |v| > 0 && v[0] == '#' then v else "#" + v;
        UpperNoLower(w);
        UpperAscii(w)
  }

  lemma {:induction false} UpperNoLower(s: string)
    ensures NoLower(UpperAscii(s))
  {
    forall i | 0 <= i < |s| ensures !('a' <= UpperAscii(s)[i] <= 'z') {
      var c := s[i];
      if 'a' <= c <= 'z' {
        assert 'A' <= ToUpperAscii(c) <= 'Z';
      }
    }
  }

  lemma {:induction false} UpperOfUpper(s: string)
    requires NoLower(s)
    ensures UpperAscii(s) == s
  {
    assert forall i :: 0 <= i < |s| ==> UpperAscii(s)[i] == s[i];
  }

  /** Upper-casing keeps whitespace, hex digits and `#` what they are. */
  lemma {:induction false} UpperKeepsClass(c: char)
    ensures IsWhitespace(ToUpperAscii(c)) <==> IsWhitespace(c)
    ensures IsHexDigit(ToUpperAscii(c)) <==> IsHexDigit(c)
    ensures ToUpperAscii(c) == '#' <==> c == '#'
  {
    if 'a' <= c <= 'z' {
      assert 'A' <= ToUpperAscii(c) <= 'Z';
    }
  }

  /** The short form: each of the three digits doubled, upper-cased, after a `#`. */
  lemma {:induction false} NormalizeHexExpands(hex: string)
    requires hex != [] && IsShortHex(Trim(hex))
    ensures var v := Trim(hex);
            var d := if |v| == 4 then v[1..] else v;
            var r := NormalizeHex(hex);
            |r| == 7 && r[0] == '#'
            && forall i :: 0 <= i < 3 ==> r[2 * i + 1] == ToUpperAscii(d[i]) && r[2 * i + 2] == ToUpperAscii(d[i])
  {
    var v := Trim(hex);
    ShortDigits(v);
    var d := RemoveFirst(v, '#');
    assert NormalizeHex(hex) == "#" + UpperAscii(Doubled(d));
    ShortForm(d);
  }

  lemma {:induction false} ShortForm(d: string)
    requires |d| == 3
    ensures var r := "#" + UpperAscii(Doubled(d));
            |r| == 7 && r[0] == '#'
            && forall i :: 0 <= i < 3 ==> r[2 * i + 1] == ToUpperAscii(d[i]) && r[2 * i + 2] == ToUpperAscii(d[i])
  {
    var r := "#" + UpperAscii(Doubled(d));
    forall i | 0 <= i < 3
      ensures r[2 * i + 1] == ToUpperAscii(d[i]) && r[2 * i + 2] == ToUpperAscii(d[i])
    {
      assert r[2 * i + 1] == UpperAscii(Doubled(d))[2 * i];
      assert r[2 * i + 2] == UpperAscii(Doubled(d))[2 * i + 1];
    }
  }

  /** A full `#rrggbb` colour is only upper-cased. */
  lemma {:induction false} NormalizeHexLong(h: string)
    requires |h| == 6 && AllHex(h)
    ensures NormalizeHex("#" + h) == "#" + UpperAscii(h)
  {
    var hex := "#" + h;
    assert IsHexDigit(hex[6]);
    TrimOfTrimmed(hex);
    UpperKeepsClass('#');
    assert UpperAscii(hex) == "#" + UpperAscii(h);
  }

  /** The long branch: its result has no blank ends and is not the short form. */
  lemma {:induction false} LongBranchShape(v: string)
    requires v == [] || (!IsWhitespace(v[0]) && !IsWhitespace(v[|v| - 1]))
    requires !IsShortHex(v)
    ensures var r := UpperAscii(if |v| > 0 && v[0] == '#' then v else "#" + v);
            !IsWhitespace(r[0]) && !IsWhitespace(r[|r| - 1]) && !IsShortHex(r)
  {
    var w := if |v| > 0 && v[0] == '#' then v else "#" + v;
    UpperKeepsClass(w[|w| - 1]);
    UpperKeepsClass('#');
    ShortOfUpper(w);
    PrefixedShort(v);
  }

  /** Upper-casing never turns text into the short form. */
  lemma {:induction false} ShortOfUpper(w: string)
    ensures IsShortHex(UpperAscii(w)) ==> IsShortHex(w)
  {
    var r := UpperAscii(w);
    forall i | 0 <= i < |w| ensures IsHexDigit(r[i]) <==> IsHexDigit(w[i]) {
      UpperKeepsClass(w[i]);
    }
    if |w| > 0 {
      UpperKeepsClass(w[0]);
    }
    if |w| == 4 {
      assert forall i :: 0 <= i < 3 ==> r[1..][i] == r[i + 1] && w[1..][i] == w[i + 1];
    }
  }

  /** Putting a `#` in front of text that is not the short form does not make it one. */
  lemma {:induction false} PrefixedShort(v: string)
    ensures IsShortHex("#" + v) ==> IsShortHex(v)
  {
    var w := "#" + v;
    assert w[1..] == v;
    assert !IsHexDigit(w[0]);
  }

  /** The digits of the short form, once its `#` is removed. */
  lemma {:induction false} ShortDigits(v: string)
    requires IsShortHex(v)
    ensures var d := RemoveFirst(v, '#');
            d == (if |v| == 4 then v[1..] else v) && |d| == 3 && AllHex(d)
  {
    if |v| == 3 {
      assert '#' !in v by {
        forall i | 0 <= i < |v| ensures v[i] != '#' { assert IsHexDigit(v[i]); }
      }
    }
  }

  /** The short branch: seven characters ending in a digit. */
  lemma {:induction false} ShortBranchShape(d: string)
    requires |d| == 3 && AllHex(d)
    ensures var r := "#" + UpperAscii(Doubled(d));
            |r| == 7 && !IsWhitespace(r[0]) && !IsWhitespace(r[6]) && !IsShortHex(r)
  {
    ShortForm(d);
    assert IsHexDigit(d[2]);
    UpperKeepsClass(d[2]);
  }

  /** What a normalized colour looks like: no blank ends, and not the short form. */
  lemma {:induction false} NormalizedShape(hex: string)
    requires hex != []
    ensures var r := NormalizeHex(hex);
            Trim(r) == r && !IsShortHex(r)
  {
    var v := Trim(hex);
    var r := NormalizeHex(hex);
    if IsShortHex(v) {
      assert r == "#" + UpperAscii(Doubled(RemoveFirst(v, '#')));
      ShortBranchNormal(v, r);
    } else {
      assert r == UpperAscii(if |v| > 0 && v[0] == '#' then v else "#" + v);
      LongBranchNormal(v, r);
    }
  }

  lemma {:induction false} ShortBranchNormal(v: string, r: string)
    requires IsShortHex(v) && r == "#" + UpperAscii(Doubled(RemoveFirst(v, '#')))
    ensures Trim(r) == r && !IsShortHex(r)
  {
    ShortDigits(v);
    ShortBranchShape(RemoveFirst(v, '#'));
    TrimOfTrimmed(r);
  }

  lemma {:induction false} LongBranchNormal(v: string, r: string)
    requires v == [] || (!IsWhitespace(v[0]) && !IsWhitespace(v[|v| - 1]))
    requires !IsShortHex(v) && r == UpperAscii(if |v| > 0 && v[0] == '#' then v else "#" + v)
    ensures Trim(r) == r && !IsShortHex(r)
  {
    LongBranchShape(v);
    TrimOfTrimmed(r);
  }

  /** Normalizing twice is normalizing once. */
  lemma {:induction false} NormalizeHexIdempotent(hex: string)
    ensures NormalizeHex(NormalizeHex(hex)) == NormalizeHex(hex)
  {
    if hex != [] {
      var r := NormalizeHex(hex);
      NormalizedShape(hex);
      UpperOfUpper(r);
    }
  }

  // ---------------------------------------------------------------------
  // adjustBrightness
  // ---------------------------------------------------------------------

  function HexDigitValue(c: char): (n: nat)
    requires IsHexDigit(c)
    ensures n < 16
  {
    if '0' <= c <= '9' then c as int - '0' as int
    else if 'a' <= c <= 'f' then c as int - 'a' as int + 10
    else c as int - 'A' as int + 10
  }

  /** The value of a string of hex digits, most significant first. */
  function HexValue(s: string): nat
    requires AllHex(s)
  {
    if s == [] then 0 else HexValue(s[..|s| - 1]) * 16 + HexDigitValue(s[|s| - 1])
  }

  /** The length of the run of hex digits that starts `s`. */
  function HexRun(s: string): (n: nat)
    ensures n <= |s| && AllHex(s[..n]) && (n < |s| ==> !IsHexDigit(s[n]))
  {
    if s == [] || !IsHexDigit(s[0]) then 0
    else
      var n := 1 + HexRun(s[1..]);
      assert s[..n] == [s[0]] + s[1..][..n - 1];
      n
  }

  /**
   * `parseInt(s, 16)`: leading whitespace, an optional sign and an optional
   * `0x` are skipped, then the run of hex digits is read; no digit is NaN
   * (`None`).
   */
  function ParseIntHex(s: string): (r: Option<int>)
  {
    var t := s[SkipSpaceForward(s, 0)..];
    var negative := |t| > 0 && t[0] == '-';
    var u := if |t| > 0 && (t[0] == '-' || t[0] == '+') then t[1..] else t;
    var x := if |u| >= 2 && u[0] == '0' && (u[1] == 'x' || u[1] == 'X') then u[2..] else u;
    var n := HexRun(x);
    if n == 0 then None
    else
      var v: int := HexValue(x[..n]);
      Some(if negative then -v else v)
  }

  /** ECMAScript's ToInt32, which the shifts and masks apply first; NaN becomes 0. */
  function ToInt32(n: Option<int>): (r: int)
    ensures -0x8000_0000 <= r < 0x8000_0000
  {
    match n
    case None => 0
    case Some(v) =>
      var m := v % 0x1_0000_0000;
      if m >= 0x8000_0000 then m - 0x1_0000_0000 else m
  }

  /** A colour channel. */
  datatype Rgb = Rgb(r: int, g: int, b: int)

  /** `num >> 16`, `num >> 8 & 0xFF` and `num & 0xFF` (the shift floors). */
  function RgbOf(num: int): (c: Rgb)
    ensures 0 <= c.g < 256 && 0 <= c.b < 256
  {
    Rgb(num / 0x1_0000, (num / 0x100) % 0x100, num % 0x100)
  }

  function Clamp(x: int): (r: int)
    ensures 0 <= r <= 255
    ensures 0 <= x <= 255 ==> r == x
  {
    if x > 255 then 255 else if x < 0 then 0 else x
  }

  /** `r << 16 | g << 8 | b` for channels in 0..255, whose bits do not overlap. */
  function Pack(c: Rgb): int
  {
    c.r * 0x1_0000 + c.g * 0x100 + c.b
  }

  /** `n.toString(16)`: lower-case hex digits, no leading zero. */
  function NatToHex(n: nat): (s: string)
    ensures |s| >= 1 && AllHex(s) && NoUpperHex(s)
  {
    if n < 16 then [HexChar(n)] else NatToHex(n / 16) + [HexChar(n % 16)]
  }

  function HexChar(n: nat): (c: char)
    requires n < 16
    ensures IsHexDigit(c) && HexDigitValue(c) == n && !('A' <= c <= 'F')
  {
    "0123456789abcdef"[n]
  }

  predicate NoUpperHex(s: string) { forall i :: 0 <= i < |s| ==> !('A' <= s[i] <= 'F') }

  /**
   * `adjustBrightness(color, amount)`: the hex colour read with `parseInt`,
   * `amount` added to each channel, each clamped to 0..255, written back as
   * six lower-case hex digits, with the `#` kept if it was there.
   */
  function AdjustBrightness(color: string, amount: int): string
  {
    var usePound := |color| > 0 && color[0] == '#';
    Render(Adjusted(color, amount), usePound)
  }

  /** The channels `adjustBrightness` computes: the old ones plus `amount`, clamped. */
  function Adjusted(color: string, amount: int): (c: Rgb)
    ensures 0 <= c.r < 256 && 0 <= c.g < 256 && 0 <= c.b < 256
  {
    var col := if |color| > 0 && color[0] == '#' then color[1..] else color;
    var c := RgbOf(ToInt32(ParseIntHex(col)));
    Rgb(Clamp(c.r + amount), Clamp(c.g + amount), Clamp(c.b + amount))
  }

  /** `(usePound ? '#' : '') + (r << 16 | g << 8 | b).toString(16).padStart(6, '0')`. */
  function Render(c: Rgb, usePound: bool): string
    requires 0 <= c.r < 256 && 0 <= c.g < 256 && 0 <= c.b < 256
  {
    (if usePound then "#" else "") + PadStart(NatToHex(Pack(c)), 6, '0')
  }

  lemma {:induction false} NatToHexValue(n: nat)
    ensures HexValue(NatToHex(n)) == n
  {
    var s := NatToHex(n);
    if n >= 16 {
      NatToHexValue(n / 16);
      assert s[..|s| - 1] == NatToHex(n / 16);
    } else {
      assert s[..0] == [];
    }
  }

  lemma {:induction false} NatToHexLength(n: nat, k: nat)
    requires 1 <= k && n < Pow16(k)
    ensures |NatToHex(n)| <= k
  {
    if n >= 16 {
      NatToHexLength(n / 16, k - 1);
    }
  }

  function Pow16(k: nat): nat
  {
    if k == 0 then 1 else 16 * Pow16(k - 1)
  }

  /** A leading zero does not change the value. */
  lemma {:induction false} HexValueLeadingZero(s: string)
    requires AllHex(s)
    ensures AllHex("0" + s) && HexValue("0" + s) == HexValue(s)
    decreases |s|
  {
    var t := "0" + s;
    if s == [] {
      assert t[..0] == [];
    } else {
      HexValueLeadingZero(s[..|s| - 1]);
      assert t[..|t| - 1] == "0" + s[..|s| - 1];
    }
  }

  lemma {:induction false} HexValuePadStart(s: string, n: nat)
    requires AllHex(s)
    ensures AllHex(PadStart(s, n, '0')) && HexValue(PadStart(s, n, '0')) == HexValue(s)
    decreases n - |s|
  {
    if |s| < n {
      HexValueLeadingZero(s);
      assert PadStart(s, n, '0') == PadStart("0" + s, n, '0');
      HexValuePadStart("0" + s, n);
    }
  }

  /** Unpacking a packed colour gives its channels back. */
  lemma {:induction false} UnpackPack(c: Rgb)
    requires 0 <= c.r < 256 && 0 <= c.g < 256 && 0 <= c.b < 256
    ensures 0 <= Pack(c) < 0x100_0000 && RgbOf(Pack(c)) == c
  {
    var n := Pack(c);
    assert n / 0x100 == c.r * 0x100 + c.g;
    assert n / 0x1_0000 == c.r;
  }

  /** Writing channels in 0..255 gives six hex digits that read back as those channels. */
  lemma {:induction false} RenderReadsBack(c: Rgb, usePound: bool)
    requires 0 <= c.r < 256 && 0 <= c.g < 256 && 0 <= c.b < 256
    ensures var out := Render(c, usePound);
            var digits := if usePound then out[1..] else out;
            |out| == (if usePound then 7 else 6) && (usePound ==> out[0] == '#')
            && AllHex(digits) && NoUpperHex(digits) && RgbOf(HexValue(digits)) == c
  {
    UnpackPack(c);
    var h := NatToHex(Pack(c));
    NatToHexLength(Pack(c), 6);
    NatToHexValue(Pack(c));
    HexValuePadStart(h, 6);
    PadZerosLower(h, 6);
    var out := Render(c, usePound);
    assert (if usePound then out[1..] else out) == PadStart(h, 6, '0');
  }

  lemma {:induction false} PadZerosLower(s: string, n: nat)
    requires NoUpperHex(s)
    ensures NoUpperHex(PadStart(s, n, '0'))
    decreases n - |s|
  {
    if |s| < n {
      PadZerosLower("0" + s, n);
    }
  }

  /**
   * The result is a `#` (exactly when the input had one) and six lower-case
   * hex digits whose channels are the input's, each moved by `amount` and
   * clamped to 0..255.
   */
  lemma {:induction false} AdjustBrightnessReadsBack(color: string, amount: int)
    ensures var out := AdjustBrightness(color, amount);
            var pound := |color| > 0 && color[0] == '#';
            var digits := if pound then out[1..] else out;
            |out| == (if pound then 7 else 6) && (pound ==> out[0] == '#')
            && AllHex(digits) && NoUpperHex(digits) && RgbOf(HexValue(digits)) == Adjusted(color, amount)
  {
    RenderReadsBack(Adjusted(color, amount), |color| > 0 && color[0] == '#');
  }

  /** A larger amount never gives a darker channel. */
  lemma {:induction false} AdjustedMonotone(color: string, a: int, b: int)
    requires a <= b
    ensures var x, y := Adjusted(color, a), Adjusted(color, b);
            x.r <= y.r && x.g <= y.g && x.b <= y.b
  {
  }

  lemma {:induction false} HexRunAll(s: string)
    requires AllHex(s)
    ensures HexRun(s) == |s|
  {
    if s != [] {
      assert AllHex(s[1..]) by {
        forall i | 0 <= i < |s[1..]| ensures IsHexDigit(s[1..][i]) { assert s[1..][i] == s[i + 1]; }
      }
      HexRunAll(s[1..]);
    }
  }

  lemma {:induction false} HexValueBound(s: string)
    requires AllHex(s)
    ensures HexValue(s) < Pow16(|s|)
  {
    if s != [] {
      HexValueBound(s[..|s| - 1]);
    }
  }

  /** A string of hex digits with nothing before them is read whole by `parseInt`. */
  lemma {:induction false} ParseIntHexDigits(h: string)
    requires |h| >= 2 && AllHex(h)
    ensures ParseIntHex(h) == Some(HexValue(h))
  {
    assert IsHexDigit(h[0]) && IsHexDigit(h[1]);
    assert SkipSpaceForward(h, 0) == 0;
    assert h[0..] == h;
    HexRunAll(h);
    assert h[..|h|] == h;
  }

  /** Below 2^24, the channels pack back to the number. */
  lemma {:induction false} PackUnpack(n: int)
    requires 0 <= n < 0x100_0000
    ensures 0 <= RgbOf(n).r < 256 && Pack(RgbOf(n)) == n
  {
    var c := RgbOf(n);
    assert n / 0x100 == c.r * 0x100 + c.g;
  }

  /** Adding zero to the channels of a `#rrggbb` colour changes none of them. */
  lemma {:induction false} AdjustedByZero(h: string)
    requires |h| == 6 && AllHex(h)
    ensures HexValue(h) < 0x100_0000 && Adjusted("#" + h, 0) == RgbOf(HexValue(h))
  {
    var color := "#" + h;
    assert color[1..] == h;
    ParseIntHexDigits(h);
    HexValueBound(h);
    assert Pow16(6) == 0x100_0000;
    var n := HexValue(h);
    assert ToInt32(ParseIntHex(h)) == n;
    PackUnpack(n);
    var c := RgbOf(n);
    assert Clamp(c.r) == c.r && Clamp(c.g) == c.g && Clamp(c.b) == c.b;
  }

  /** Adjusting a `#rrggbb` colour by zero gives the same colour, in lower case. */
  lemma {:induction false} AdjustByZero(h: string)
    requires |h| == 6 && AllHex(h)
    ensures var out := AdjustBrightness("#" + h, 0);
            |out| == 7 && AllHex(out[1..]) && HexValue(out[1..]) == HexValue(h)
  {
    AdjustedByZero(h);
    AdjustBrightnessReadsBack("#" + h, 0);
    var digits := AdjustBrightness("#" + h, 0)[1..];
    HexValueBound(digits);
    assert Pow16(6) == 0x100_0000;
    PackUnpack(HexValue(digits));
    PackUnpack(HexValue(h));
  }

  // ---------------------------------------------------------------------
  // addToRecentColors
  // ---------------------------------------------------------------------

  /** How many recent colours are kept. */
  const MAX_RECENT := 10

  /** The `filter` test: an entry that does not normalize to `val`. */
  function OtherThan(val: string): string -> bool
  {
    c => NormalizeHex(c) != val
  }

  /**
   * `addToRecentColors` on the list as a value: the normalized colour goes
   * first, every entry that normalizes to it is dropped, and the list is
   * cut at ten. An empty colour changes nothing.
   */
  function AddRecent(recent: seq<string>, hex: string): seq<string>
  {
    var val := NormalizeHex(hex);
    if val == [] then recent
    else
      var list := [val] + Records.Filter(recent, OtherThan(val));
      if |list| > MAX_RECENT then list[..MAX_RECENT] else list
  }

  /** No two entries stand for the same colour. */
  ghost predicate DistinctColors(s: seq<string>)
  {
    DistinctBy(s, NormalizeHex)
  }

  /**
   * After adding a colour, it is first, the list holds at most ten entries,
   * and the rest are the old entries of other colours, in their old order.
   */
  lemma {:induction false} AddRecentFront(recent: seq<string>, hex: string)
    requires hex != []
    ensures var r := AddRecent(recent, hex);
            var rest := Records.Filter(recent, OtherThan(NormalizeHex(hex)));
            1 <= |r| <= MAX_RECENT && r[0] == NormalizeHex(hex)
            && r[1..] == rest[..|r| - 1]
            && (|r| < MAX_RECENT ==> |r| - 1 == |rest|)
            && forall i :: 1 <= i < |r| ==> NormalizeHex(r[i]) != NormalizeHex(hex)
  {
    var val := NormalizeHex(hex);
    var rest := Records.Filter(recent, OtherThan(val));
    var r := AddRecent(recent, hex);
    var list := [val] + rest;
    assert list[1..] == rest;
    forall i | 1 <= i < |r| ensures NormalizeHex(r[i]) != val {
      assert r[i] == rest[i - 1] && rest[i - 1] in rest;
    }
  }

  /** No two entries have the same key. */
  ghost predicate DistinctBy(s: seq<string>, key: string -> string)
  {
    forall i, j :: 0 <= i < j < |s| ==> key(s[i]) != key(s[j])
  }

  lemma {:induction false} FilterDistinct(s: seq<string>, keep: string -> bool, key: string -> string)
    requires DistinctBy(s, key)
    ensures DistinctBy(Records.Filter(s, keep), key)
  {
    if s != [] {
      assert DistinctBy(s[1..], key) by {
        forall i, j | 0 <= i < j < |s[1..]| ensures key(s[1..][i]) != key(s[1..][j]) {
          assert s[1..][i] == s[i + 1] && s[1..][j] == s[j + 1];
        }
      }
      FilterDistinct(s[1..], keep, key);
      var tail := Records.Filter(s[1..], keep);
      if keep(s[0]) {
        var f := [s[0]] + tail;
        forall i, j | 0 <= i < j < |f| ensures key(f[i]) != key(f[j]) {
          if i == 0 {
            assert f[j] == tail[j - 1] && tail[j - 1] in s[1..];
            var k :| 0 <= k < |s[1..]| && s[1..][k] == f[j];
            assert s[k + 1] == f[j];
          } else {
            assert f[i] == tail[i - 1] && f[j] == tail[j - 1];
          }
        }
      }
    }
  }

  /** Adding a colour keeps the entries distinct. */
  lemma {:induction false} AddRecentDistinct(recent: seq<string>, hex: string)
    requires DistinctColors(recent)
    ensures DistinctColors(AddRecent(recent, hex))
  {
    if hex != [] {
      var val := NormalizeHex(hex);
      var rest := Records.Filter(recent, OtherThan(val));
      FilterDistinct(recent, OtherThan(val), NormalizeHex);
      AddRecentFront(recent, hex);
      NormalizeHexIdempotent(hex);
      var r := AddRecent(recent, hex);
      HeadThenDistinct(r, rest, NormalizeHex);
    }
  }

  /** A head whose key is new, before a prefix of a distinct list, keeps the list distinct. */
  lemma {:induction false} HeadThenDistinct(r: seq<string>, rest: seq<string>, key: string -> string)
    requires 1 <= |r| <= |rest| + 1 && r[1..] == rest[..|r| - 1] && DistinctBy(rest, key)
    requires forall i :: 1 <= i < |r| ==> key(r[i]) != key(r[0])
    ensures DistinctBy(r, key)
  {
    forall i, j | 0 <= i < j < |r| ensures key(r[i]) != key(r[j]) {
      if i > 0 {
        assert r[i] == rest[i - 1] && r[j] == rest[j - 1];
      }
    }
  }

  lemma {:induction false} FilterAllKept(s: seq<string>, keep: string -> bool)
    requires forall i :: 0 <= i < |s| ==> keep(s[i])
    ensures Records.Filter(s, keep) == s
  {
    if s != [] {
      FilterAllKept(s[1..], keep);
    }
  }

  /** Adding the same colour twice is adding it once. */
  lemma {:induction false} AddRecentTwice(recent: seq<string>, hex: string)
    ensures AddRecent(AddRecent(recent, hex), hex) == AddRecent(recent, hex)
  {
    if hex != [] {
      var val := NormalizeHex(hex);
      var r := AddRecent(recent, hex);
      AddRecentFront(recent, hex);
      NormalizeHexIdempotent(hex);
      FilterDropsHead(r, OtherThan(val));
      AddRecentOfHead(r, hex, val);
    }
  }

  /** A filter that rejects only the head of a list yields its tail. */
  lemma {:induction false} FilterDropsHead(r: seq<string>, keep: string -> bool)
    requires |r| >= 1 && !keep(r[0])
    requires forall i :: 1 <= i < |r| ==> keep(r[i])
    ensures Records.Filter(r, keep) == r[1..]
  {
    FilterAllKept(r[1..], keep);
  }

  /** Adding the colour a short list already starts with, and nowhere else, changes nothing. */
  lemma {:induction false} AddRecentOfHead(r: seq<string>, hex: string, val: string)
    requires val == NormalizeHex(hex) && val != []
    requires 1 <= |r| <= MAX_RECENT && r[0] == val
    requires Records.Filter(r, OtherThan(val)) == r[1..]
    ensures AddRecent(r, hex) == r
  {
    assert [val] + r[1..] == r;
  }

  /** The `recentColors` list of the colour picker. */
  class RecentColors {
    var colors: seq<string>

    constructor ()
      ensures colors == []
    {
      colors := [];
    }

    /** `addToRecentColors(hex)`. */
    method Add(hex: string)
      modifies this
      ensures colors == AddRecent(old(colors), hex)
      ensures hex != [] ==> 1 <= |colors| <= MAX_RECENT && colors[0] == NormalizeHex(hex)
      ensures old(DistinctColors(colors)) ==> DistinctColors(colors)
    {
      ghost var before := colors;
      var val := NormalizeHex(hex);
      if val == [] {
        return;
      }
      var list := [val] + Records.Filter(colors, OtherThan(val));
      if |list| > MAX_RECENT {
        list := list[..MAX_RECENT];
      }
      colors := list;
      AddRecentFront(before, hex);
      if DistinctColors(before) {
        AddRecentDistinct(before, hex);
      }
    }
  }
}
