/** Colour-string canonicalisation: `rgbaToHex` and its inner `toHex`
    (src/lib/utils.ts). A colour is plain text; `rgb(...)`/`rgba(...)` text is
    turned into `#rrggbb` or `#rrggbbaa`, anything else is passed through. */
module Colors {

  datatype Option<T> = None | Some(value: T)

  /** The cell value that means "empty". */
  const Transparent: string := "transparent"

  predicate IsDigit(c: char) { '0' <= c <= '9' }

  predicate IsDecimalChar(c: char) { IsDigit(c) || c == '.' }

  predicate IsLowerHex(c: char) { IsDigit(c) || 'a' <= c <= 'f' }

  /** The characters of JavaScript's regular-expression class `\s`. */
  predicate IsSpace(c: char) {
    c == ' ' || c == '\t' || c == '\n' || c == '\U{B}' || c == '\U{C}' || c == '\r'
    || c == '\U{A0}' || c == '\U{1680}' || ('\U{2000}' <= c <= '\U{200A}')
    || c == '\U{2028}' || c == '\U{2029}' || c == '\U{202F}' || c == '\U{205F}'
    || c == '\U{3000}' || c == '\U{FEFF}'
  }

  predicate AllDigits(s: string) { forall i :: 0 <= i < |s| ==> IsDigit(s[i]) }

  /** Text that `\d+` matches in full. */
  predicate IsDigitRun(s: string) { |s| > 0 && AllDigits(s) }

  predicate AllLowerHex(s: string) { forall i :: 0 <= i < |s| ==> IsLowerHex(s[i]) }

  /** Text that `[\d.]+` matches in full. */
  predicate IsDecimalText(s: string) { |s| > 0 && forall i :: 0 <= i < |s| ==> IsDecimalChar(s[i]) }

  /** Length of the longest prefix of `t` whose characters all satisfy `p`. */
  function Lead(t: string, p: char -> bool): (k: nat)
    ensures k <= |t|
    ensures forall i :: 0 <= i < k ==> p(t[i])
    ensures k < |t| ==> !p(t[k])
  {
    if t == [] || !p(t[0]) then 0 else 1 + Lead(t[1..], p)
  }

  /** A run `d` followed by a character outside the class is read whole. */
  lemma LeadOfRun(d: string, rest: string, p: char -> bool)
    requires forall i :: 0 <= i < |d| ==> p(d[i])
    requires rest == [] || !p(rest[0])
    ensures Lead(d + rest, p) == |d|
  {
    var t := d + rest;
    assert forall i :: 0 <= i < |d| ==> t[i] == d[i];
    assert |t| > |d| ==> t[|d|] == rest[0];
  }

  // ---------------------------------------------------------------- numbers

  function DigitValue(c: char): (v: nat)
    requires IsDigit(c)
    ensures v < 10
  {
    (c as int) - ('0' as int)
  }

  function DigitChar(d: nat): (c: char)
    requires d < 10
    ensures IsDigit(c) && DigitValue(c) == d
  {
    ('0' as int + d) as char
  }

  /** The value of a string of decimal digits, most significant first. */
  function DecimalValue(d: string): nat
    requires AllDigits(d)
  {
    if d == [] then 0 else DecimalValue(d[..|d| - 1]) * 10 + DigitValue(d[|d| - 1])
  }

  /** The decimal text JavaScript prints for a non-negative integer `n`. */
  function Decimal(n: nat): (s: string)
    ensures |s| > 0 && AllDigits(s)
    ensures n < 10 <==> |s| == 1
  {
    if n < 10 then [DigitChar(n)] else Decimal(n / 10) + [DigitChar(n % 10)]
  }

  lemma {:induction false} DecimalRoundTrip(n: nat)
    ensures DecimalValue(Decimal(n)) == n
  {
    if n >= 10 {
      DecimalRoundTrip(n / 10);
      var s := Decimal(n);
      assert s[..|s| - 1] == Decimal(n / 10);
    }
  }

  function HexChar(d: nat): (c: char)
    requires d < 16
    ensures IsLowerHex(c)
  {
    if d < 10 then DigitChar(d) else ('a' as int + d - 10) as char
  }

  function HexValue(c: char): (v: nat)
    requires IsLowerHex(c)
    ensures v < 16
  {
    if IsDigit(c) then DigitValue(c) else (c as int) - ('a' as int) + 10
  }

  /** The value of a string of lowercase hexadecimal digits. */
  function HexNumber(s: string): nat
    requires AllLowerHex(s)
  {
    if s == [] then 0 else HexNumber(s[..|s| - 1]) * 16 + HexValue(s[|s| - 1])
  }

  /** `n.toString(16)`: lowercase base-16 digits without leading zeros. */
  function HexString(n: nat): (s: string)
    ensures |s| > 0 && AllLowerHex(s)
    ensures n < 16 <==> |s| == 1
    ensures 16 <= n < 256 <==> |s| == 2
  {
    if n < 16 then [HexChar(n)] else HexString(n / 16) + [HexChar(n % 16)]
  }

  lemma {:induction false} HexRoundTrip(n: nat)
    ensures HexNumber(HexString(n)) == n
  {
    if n >= 16 {
      HexRoundTrip(n / 16);
      var s := HexString(n);
      assert s[..|s| - 1] == HexString(n / 16);
    }
  }

  /** JavaScript `parseInt(s)` on text that starts with a decimal digit, or
      `None` (NaN) when it does not. */
  function ParseInt(s: string): (r: Option<nat>)
    ensures r.None? <==> (s == [] || !IsDigit(s[0]))
  {
    var k := Lead(s, IsDigit);
    if k == 0 then None else Some(DecimalValue(s[..k]))
  }

  /** `parseInt` reads a whole digit run as its decimal value. */
  lemma ParseIntOfDigits(d: string)
    requires IsDigitRun(d)
    ensures ParseInt(d) == Some(DecimalValue(d))
  {
    LeadOfRun(d, [], IsDigit);
    assert d + [] == d;
    assert d[..|d|] == d;
  }

  lemma ParseIntOfDecimal(n: nat)
    ensures ParseInt(Decimal(n)) == Some(n)
  {
    ParseIntOfDigits(Decimal(n));
    DecimalRoundTrip(n);
  }

  /** A leading zero does not change the value of a hex digit. */
  lemma PadHexDigit(h: string)
    requires |h| == 1 && AllLowerHex(h)
    ensures AllLowerHex("0" + h) && HexNumber("0" + h) == HexNumber(h)
  {
    var t := "0" + h;
    assert t[..1] == "0";
    assert HexNumber(t) == HexNumber("0") * 16 + HexValue(h[0]);
    assert HexNumber(h) == HexNumber([]) * 16 + HexValue(h[0]);
  }

  /** `toHex` of utils.ts: `parseInt(n).toString(16)`, zero-padded when it is
      one digit long; NaN prints as "NaN". A number reads back from its hex
      field, which is two digits exactly when the number is below 256. */
  function ToHex(n: string): (h: string)
    ensures |h| >= 2
    ensures ParseInt(n).None? <==> h == "NaN"
    ensures ParseInt(n).Some? ==>
              AllLowerHex(h) && HexNumber(h) == ParseInt(n).value
              && (|h| == 2 <==> ParseInt(n).value < 256)
  {
    match ParseInt(n)
    case None => "NaN"
    case Some(v) =>
      HexRoundTrip(v);
      var h := HexString(v);
      if |h| == 1 then PadHexDigit(h); "0" + h else h
  }

  /** A channel 0..255 gives exactly two lowercase hex digits that read back as
      the channel. */
  lemma ToHexOfByte(v: nat)
    requires v < 256
    ensures |ToHex(Decimal(v))| == 2 && AllLowerHex(ToHex(Decimal(v)))
    ensures HexNumber(ToHex(Decimal(v))) == v
  {
    ParseIntOfDecimal(v);
  }

  function Pow10(k: nat): (p: nat)
    ensures p > 0
  {
    if k == 0 then 1 else 10 * Pow10(k - 1)
  }

  /** The value of integer digits `d` and fraction digits `f`: `d + f / 10^|f|`. */
  function DecimalFraction(d: string, f: string): (v: real)
    requires AllDigits(d) && AllDigits(f)
    ensures v >= 0.0
    ensures f == [] ==> v == DecimalValue(d) as real
  {
    DecimalValue(d) as real + DecimalValue(f) as real / Pow10(|f|) as real
  }

  /** JavaScript `parseFloat` on text made of digits and dots, read as an exact
      rational; `None` stands for NaN (no digit before or just after the first
      dot). Reading stops at the second dot. */
  function ParseFloat(t: string): (r: Option<real>)
    requires forall i :: 0 <= i < |t| ==> IsDecimalChar(t[i])
    ensures r.None? <==> (t == [] || (t[0] == '.' && (|t| == 1 || t[1] == '.')))
    ensures r.Some? ==> r.value >= 0.0
    ensures t == "1" ==> r == Some(1.0)
  {
    var k := Lead(t, IsDigit);
    var rest := t[k..];
    var hasDot := |rest| > 0 && rest[0] == '.';
    var f := if hasDot then Lead(rest[1..], IsDigit) else 0;
    var frac := if hasDot then rest[1..][..f] else "";
    assert k == 0 ==> rest == t;
    assert t != [] ==> IsDecimalChar(t[0]);
    assert |t| > 1 ==> t[1..][0] == t[1] && IsDecimalChar(t[1]);
    if k == 0 && f == 0 then None
    else Some(DecimalFraction(t[..k], frac))
  }

  /** A text of digits alone reads as its decimal value. */
  lemma ParseFloatOfDigits(d: string)
    requires IsDigitRun(d)
    ensures ParseFloat(d) == Some(DecimalValue(d) as real)
  {
    LeadOfRun(d, [], IsDigit);
    assert d + [] == d;
    assert d[..|d|] == d;
    assert d[|d|..] == [];
  }

  /** `parseFloat` of the decimal text of `n` gives back `n`. */
  lemma ParseFloatOfDecimal(n: nat)
    ensures ParseFloat(Decimal(n)) == Some(n as real)
  {
    ParseFloatOfDigits(Decimal(n));
    DecimalRoundTrip(n);
  }

  /** Integer digits `d`, a dot and fraction digits `f` (not both empty) read
      as `d + f / 10^|f|`; whatever follows from a second dot on is ignored. */
  lemma ParseFloatOfFraction(d: string, f: string, rest: string)
    requires AllDigits(d) && AllDigits(f) && |d| + |f| > 0
    requires rest == [] || rest[0] == '.'
    requires forall i :: 0 <= i < |rest| ==> IsDecimalChar(rest[i])
    ensures var t := d + "." + f + rest;
            (forall i :: 0 <= i < |t| ==> IsDecimalChar(t[i]))
            && ParseFloat(t) == Some(DecimalFraction(d, f))
  {
    var tail := "." + f + rest;
    var t := d + tail;
    assert d + "." + f + rest == t;
    DecimalCharsOfParts(d, f, rest);
    LeadOfRun(d, tail, IsDigit);
    assert t[..|d|] == d;
    assert t[|d|..] == tail;
    assert tail[1..] == f + rest;
    LeadOfRun(f, rest, IsDigit);
    assert (f + rest)[..|f|] == f;
  }

  lemma DecimalCharsOfParts(d: string, f: string, rest: string)
    requires AllDigits(d) && AllDigits(f)
    requires forall i :: 0 <= i < |rest| ==> IsDecimalChar(rest[i])
    ensures forall i :: 0 <= i < |d + ("." + f + rest)| ==> IsDecimalChar((d + ("." + f + rest))[i])
  {
    var t := d + ("." + f + rest);
    forall i | 0 <= i < |t| ensures IsDecimalChar(t[i]) {
      if i < |d| {
        assert t[i] == d[i];
      } else if i > |d| + |f| {
        assert t[i] == rest[i - |d| - |f| - 1];
      } else if i > |d| {
        assert t[i] == f[i - |d| - 1];
      }
    }
  }

  /** JavaScript `Math.round` of a non-negative value: halves round up. */
  function RoundHalfUp(x: real): (n: nat)
    requires x >= 0.0
    ensures n as real <= x + 0.5 < n as real + 1.0
  {
    (x + 0.5).Floor
  }

  // ---------------------------------------------------------------- the pattern

  /** The groups of a match of `rgba?\((\d+),\s*(\d+),\s*(\d+)(?:,\s*([\d.]+))?\)`. */
  datatype RgbMatch = RgbMatch(r: string, g: string, b: string, alpha: Option<string>)

  /** The shape of every match: three digit runs, and an alpha group of
      digits and dots when present. */
  predicate WellFormed(m: RgbMatch)
  {
    IsDigitRun(m.r) && IsDigitRun(m.g) && IsDigitRun(m.b)
    && (m.alpha.Some? ==> IsDecimalText(m.alpha.value))
  }

  /** `\d+` at the start of `t`: the digits and the text after them. The regex
      needs no backtracking here, since a shorter run is always followed by a
      digit where the pattern wants something else. */
  function Digits(t: string): (r: Option<(string, string)>)
    ensures r.Some? ==> IsDigitRun(r.value.0) && t == r.value.0 + r.value.1
  {
    var k := Lead(t, IsDigit);
    if k == 0 then None else Some((t[..k], t[k..]))
  }

  /** `,\s*` at the start of `t`: the text after it. */
  function Separator(t: string): (r: Option<string>)
    ensures r.Some? ==> |r.value| < |t|
  {
    if |t| > 0 && t[0] == ',' then Some(t[1..][Lead(t[1..], IsSpace)..]) else None
  }

  /** The optional alpha group and the closing parenthesis after the third channel. */
  function AlphaTail(t: string): (r: Option<Option<string>>)
    ensures r.Some? && r.value.Some? ==> IsDecimalText(r.value.value)
  {
    if |t| > 0 && t[0] == ')' then Some(None)
    else match Separator(t)
      case None => None
      case Some(u) =>
        var k := Lead(u, IsDecimalChar);
        if 0 < k < |u| && u[k] == ')' then Some(Some(u[..k])) else None
  }

  /** The pattern anchored at the start of `t`. */
  function MatchAt(t: string): (r: Option<RgbMatch>)
    ensures r.Some? ==> |t| > 0 && t[0] == 'r'
    ensures r.Some? ==> WellFormed(r.value)
  {
    if !(|t| >= 3 && t[0] == 'r' && t[1] == 'g' && t[2] == 'b') then None
    else
      var u0 := t[3..];
      var u := if |u0| > 0 && u0[0] == 'a' then u0[1..] else u0;
      if |u| > 0 && u[0] == '(' then Channels(u[1..]) else None
  }

  /** `(\d+),\s*(\d+),\s*(\d+)` and the tail, after the opening parenthesis. */
  function Channels(t: string): (r: Option<RgbMatch>)
    ensures r.Some? ==> WellFormed(r.value)
  {
    match Digits(t)
    case None => None
    case Some((r, u1)) =>
      match Separator(u1)
      case None => None
      case Some(u2) => GreenBlue(r, u2)
  }

  function GreenBlue(r: string, t: string): (res: Option<RgbMatch>)
    ensures res.Some? ==> res.value.r == r && IsDigitRun(res.value.g) && IsDigitRun(res.value.b)
    ensures res.Some? && res.value.alpha.Some? ==> IsDecimalText(res.value.alpha.value)
  {
    match Digits(t)
    case None => None
    case Some((g, u3)) =>
      match Separator(u3)
      case None => None
      case Some(u4) => Blue(r, g, u4)
  }

  function Blue(r: string, g: string, t: string): (res: Option<RgbMatch>)
    ensures res.Some? ==> res.value.r == r && res.value.g == g && IsDigitRun(res.value.b)
    ensures res.Some? && res.value.alpha.Some? ==> IsDecimalText(res.value.alpha.value)
  {
    match Digits(t)
    case None => None
    case Some((b, u5)) =>
      match AlphaTail(u5)
      case None => None
      case Some(a) => Some(RgbMatch(r, g, b, a))
  }

  /** `String.prototype.match` without the global flag: the leftmost match. */
  function Search(t: string): (r: Option<RgbMatch>)
    ensures r.Some? ==> WellFormed(r.value)
  {
    if MatchAt(t).Some? then MatchAt(t)
    else if t == [] then None
    else Search(t[1..])
  }

  /** A match starting anywhere in the text is found. */
  lemma {:induction false} SearchFindsAny(t: string, i: nat)
    requires i <= |t| && MatchAt(t[i..]).Some?
    ensures Search(t).Some?
  {
    if MatchAt(t).None? {
      assert t[0..] == t;
      assert t[1..][i - 1..] == t[i..];
      SearchFindsAny(t[1..], i - 1);
    }
  }

  /** What `Search` finds is the match at the leftmost position that has one. */
  lemma {:induction false} SearchIsLeftmost(t: string)
    ensures Search(t).Some? ==>
              exists i :: 0 <= i <= |t| && MatchAt(t[i..]) == Search(t)
                          && forall j :: 0 <= j < i ==> MatchAt(t[j..]).None?
  {
    if MatchAt(t).Some? {
      assert t[0..] == t;
    } else if t != [] && Search(t).Some? {
      SearchIsLeftmost(t[1..]);
      var i :| 0 <= i <= |t[1..]| && MatchAt(t[1..][i..]) == Search(t[1..])
                && forall j :: 0 <= j < i ==> MatchAt(t[1..][j..]).None?;
      assert t[i + 1..] == t[1..][i..];
      forall j | 0 <= j < i + 1
        ensures MatchAt(t[j..]).None?
      {
        if j == 0 {
          assert t[0..] == t;
        } else {
          assert t[j..] == t[1..][j - 1..];
        }
      }
    }
  }

  /** Text without the letter `r` holds no match anywhere. */
  lemma {:induction false} NoMatchWithoutR(t: string)
    requires forall i :: 0 <= i < |t| ==> t[i] != 'r'
    ensures Search(t) == None
  {
    if t != [] {
      NoMatchWithoutR(t[1..]);
    }
  }

  // ---------------------------------------------------------------- rgbaToHex

  /** The alpha part of the result: nothing when `parseFloat(a)` is exactly 1,
      otherwise `toHex(Math.round(parseFloat(a) * 255).toString())`, whose
      hex digits read back as the rounded value (two of them below 1). */
  function AlphaSuffix(a: string): (x: string)
    requires forall i :: 0 <= i < |a| ==> IsDecimalChar(a[i])
    ensures x == "" <==> ParseFloat(a) == Some(1.0)
    ensures ParseFloat(a).None? ==> x == "NaN"
    ensures ParseFloat(a).Some? && ParseFloat(a).value != 1.0 ==>
              AllLowerHex(x) && HexNumber(x) == RoundHalfUp(ParseFloat(a).value * 255.0)
    ensures ParseFloat(a).Some? && ParseFloat(a).value < 1.0 ==> |x| == 2
  {
    match ParseFloat(a)
    case None => ToHex("NaN")
    case Some(v) =>
      if v == 1.0 then ""
      else
        var k := RoundHalfUp(v * 255.0);
        ParseIntOfDecimal(k);
        ToHex(Decimal(k))
  }

  /** The alpha text of a match; an absent group defaults to "1", which reads
      as fully opaque. */
  function AlphaText(m: RgbMatch): (a: string)
    requires m.alpha.Some? ==> IsDecimalText(m.alpha.value)
    ensures forall i :: 0 <= i < |a| ==> IsDecimalChar(a[i])
    ensures m.alpha.None? ==> ParseFloat(a) == Some(1.0)
  {
    match m.alpha case None => "1" case Some(t) => t
  }

  lemma ToHexHasNoR(n: string)
    ensures forall i :: 0 <= i < |ToHex(n)| ==> ToHex(n)[i] != 'r'
  {
  }

  lemma AlphaSuffixHasNoR(a: string)
    requires forall i :: 0 <= i < |a| ==> IsDecimalChar(a[i])
    ensures forall i :: 0 <= i < |AlphaSuffix(a)| ==> AlphaSuffix(a)[i] != 'r'
  {
    match ParseFloat(a)
    case None => ToHexHasNoR("NaN");
    case Some(v) =>
  }

  predicate HasNoR(s: string)
  {
    forall i :: 0 <= i < |s| ==> s[i] != 'r'
  }

  lemma ConcatHasNoR(a: string, b: string)
    requires HasNoR(a) && HasNoR(b)
    ensures HasNoR(a + b)
  {
    forall i | 0 <= i < |a + b| ensures (a + b)[i] != 'r' {
      if i >= |a| {
        assert (a + b)[i] == b[i - |a|];
      }
    }
  }

  /** `#` and the three channel fields, then the alpha suffix: at least seven
      characters, starting with `#`, and never holding the letter `r`. */
  function HexOfMatch(m: RgbMatch): (h: string)
    requires m.alpha.Some? ==> IsDecimalText(m.alpha.value)
    ensures |h| >= 7 && h[0] == '#'
    ensures HasNoR(h)
  {
    var x, y, z, w := ToHex(m.r), ToHex(m.g), ToHex(m.b), AlphaSuffix(AlphaText(m));
    ToHexHasNoR(m.r);
    ToHexHasNoR(m.g);
    ToHexHasNoR(m.b);
    AlphaSuffixHasNoR(AlphaText(m));
    ConcatHasNoR("#", x);
    ConcatHasNoR("#" + x, y);
    ConcatHasNoR("#" + x + y, z);
    ConcatHasNoR("#" + x + y + z, w);
    "#" + x + y + z + w
  }

  /** `rgbaToHex` of utils.ts. The result is "transparent" exactly for the
      empty text and "transparent" itself; text without a match comes back as
      it is; a match gives a `#` form. */
  function RgbaToHex(s: string): (r: string)
    ensures r == Transparent <==> (s == "" || s == Transparent)
    ensures s != "" && Search(s).None? ==> r == s
    ensures s != Transparent && Search(s).Some? ==> |r| >= 7 && r[0] == '#' && HasNoR(r)
  {
    assert Transparent[1] == 'r';
    if s == "" || s == Transparent then Transparent
    else match Search(s)
      case None => s
      case Some(m) => HexOfMatch(m)
  }

  /** The empty string and "transparent" both canonicalise to "transparent". */
  lemma EmptyIsTransparent()
    ensures RgbaToHex("") == Transparent && RgbaToHex(Transparent) == Transparent
  {
  }

  /** Text with no `r` in it (the picker's `#rrggbb`, say) is returned as it is. */
  lemma NoPatternUnchanged(s: string)
    requires s != ""
    requires forall i :: 0 <= i < |s| ==> s[i] != 'r'
    ensures RgbaToHex(s) == s
  {
    NoMatchWithoutR(s);
  }

  /** Every result of `RgbaToHex` is a fixed point: canonicalising twice is
      canonicalising once. */
  lemma RgbaToHexIdempotent(s: string)
    ensures RgbaToHex(RgbaToHex(s)) == RgbaToHex(s)
  {
    if s != "" && s != Transparent && Search(s).Some? {
      NoPatternUnchanged(HexOfMatch(Search(s).value));
    }
  }

  /** The channels of a well-formed match read as bytes. */
  predicate ByteChannels(m: RgbMatch)
  {
    WellFormed(m) && DecimalValue(m.r) < 256 && DecimalValue(m.g) < 256 && DecimalValue(m.b) < 256
  }

  /** A match whose channels read as bytes gives `#` and three two-digit
      fields that read back as the channels (7 characters) when its alpha is
      absent or reads as exactly 1, and a fourth two-digit field (9
      characters) when the alpha reads as a value in [0, 1). */
  lemma HexOfMatchLength(m: RgbMatch)
    requires ByteChannels(m)
    ensures HexOfMatch(m)[1..7] == ToHex(m.r) + ToHex(m.g) + ToHex(m.b)
    ensures |ToHex(m.r)| == 2 && |ToHex(m.g)| == 2 && |ToHex(m.b)| == 2
    ensures AllLowerHex(ToHex(m.r)) && HexNumber(ToHex(m.r)) == DecimalValue(m.r)
    ensures AllLowerHex(ToHex(m.g)) && HexNumber(ToHex(m.g)) == DecimalValue(m.g)
    ensures AllLowerHex(ToHex(m.b)) && HexNumber(ToHex(m.b)) == DecimalValue(m.b)
    ensures ParseFloat(AlphaText(m)) == Some(1.0) ==> |HexOfMatch(m)| == 7
    ensures (ParseFloat(AlphaText(m)).Some? && ParseFloat(AlphaText(m)).value < 1.0)
            ==> |HexOfMatch(m)| == 9
  {
    ParseIntOfDigits(m.r);
    ParseIntOfDigits(m.g);
    ParseIntOfDigits(m.b);
    var x, y, z, w := ToHex(m.r), ToHex(m.g), ToHex(m.b), AlphaSuffix(AlphaText(m));
    assert |x| == 2 && |y| == 2 && |z| == 2;
    assert HexOfMatch(m) == "#" + x + y + z + w;
    FieldSlices(x, y, z, w);
  }

  /** Where the three two-character channel fields sit in the output. */
  lemma FieldSlices(x: string, y: string, z: string, w: string)
    requires |x| == 2 && |y| == 2 && |z| == 2
    ensures var h := "#" + x + y + z + w;
            h[1..3] == x && h[3..5] == y && h[5..7] == z && h[1..7] == x + y + z
  {
  }

  // ---------------------------------------------------------------- import text

  /** The text `rgba(r, g, b, a)` that an image import writes into a cell. */
  function RgbaCall(r: string, g: string, b: string, a: string): string
  {
    "rgba(" + (r + (", " + g + (", " + b + (", " + a + ")"))))
  }

  lemma DigitsOfRun(d: string, rest: string)
    requires |d| > 0 && AllDigits(d)
    requires rest == [] || !IsDigit(rest[0])
    ensures Digits(d + rest) == Some((d, rest))
  {
    LeadOfRun(d, rest, IsDigit);
    assert (d + rest)[..|d|] == d;
    assert (d + rest)[|d|..] == rest;
  }

  lemma SeparatorBeforeDigits(d: string, rest: string)
    requires |d| > 0 && AllDigits(d)
    ensures Separator(", " + d + rest) == Some(d + rest)
  {
    var t := ", " + d + rest;
    assert t[1..] == " " + (d + rest);
    LeadOfRun(" ", d + rest, IsSpace);
    assert t[1..][1..] == d + rest;
  }

  lemma AlphaTailOfText(a: string)
    requires IsDecimalText(a)
    ensures AlphaTail(", " + a + ")") == Some(Some(a))
  {
    var t := ", " + a + ")";
    assert t[1..] == " " + (a + ")");
    LeadOfRun(" ", a + ")", IsSpace);
    var u := a + ")";
    assert t[1..][1..] == u;
    LeadOfRun(a, ")", IsDecimalChar);
    assert u[..|a|] == a;
  }

  lemma BlueOfCall(r: string, g: string, b: string, a: string)
    requires |b| > 0 && AllDigits(b) && IsDecimalText(a)
    ensures Blue(r, g, b + (", " + a + ")")) == Some(RgbMatch(r, g, b, Some(a)))
  {
    DigitsOfRun(b, ", " + a + ")");
    AlphaTailOfText(a);
  }

  lemma GreenBlueOfCall(r: string, g: string, b: string, a: string)
    requires |g| > 0 && AllDigits(g) && |b| > 0 && AllDigits(b) && IsDecimalText(a)
    ensures GreenBlue(r, g + (", " + b + (", " + a + ")"))) == Some(RgbMatch(r, g, b, Some(a)))
  {
    var rest := b + (", " + a + ")");
    assert ", " + b + (", " + a + ")") == ", " + rest;
    DigitsOfRun(g, ", " + rest);
    SeparatorBeforeDigits(b, ", " + a + ")");
    assert ", " + b + (", " + a + ")") == ", " + b + (", " + a + ")");
    BlueOfCall(r, g, b, a);
  }

  lemma ChannelsOfCall(r: string, g: string, b: string, a: string)
    requires |r| > 0 && AllDigits(r) && |g| > 0 && AllDigits(g) && |b| > 0 && AllDigits(b)
    requires IsDecimalText(a)
    ensures Channels(r + (", " + g + (", " + b + (", " + a + ")")))) == Some(RgbMatch(r, g, b, Some(a)))
  {
    var rest := g + (", " + b + (", " + a + ")"));
    DigitsOfRun(r, ", " + rest);
    assert ", " + g + (", " + b + (", " + a + ")")) == ", " + rest;
    SeparatorBeforeDigits(g, ", " + b + (", " + a + ")"));
    assert ", " + g + (", " + b + (", " + a + ")")) == ", " + g + (", " + b + (", " + a + ")"));
    GreenBlueOfCall(r, g, b, a);
  }

  /** The pattern reads back the four fields of `rgba(r, g, b, a)`. */
  lemma MatchOfRgbaCall(r: string, g: string, b: string, a: string)
    requires |r| > 0 && AllDigits(r) && |g| > 0 && AllDigits(g) && |b| > 0 && AllDigits(b)
    requires IsDecimalText(a)
    ensures Search(RgbaCall(r, g, b, a)) == Some(RgbMatch(r, g, b, Some(a)))
  {
    var body := r + (", " + g + (", " + b + (", " + a + ")")));
    var t := RgbaCall(r, g, b, a);
    assert t[0] == 'r' && t[1] == 'g' && t[2] == 'b' && t[3] == 'a' && t[4] == '(';
    assert t[3..][1..][1..] == body;
    ChannelsOfCall(r, g, b, a);
    assert MatchAt(t) == Channels(body);
  }

  /** The canonical form of an `rgba(r, g, b, a)` text. */
  lemma RgbaToHexOfCall(r: string, g: string, b: string, a: string)
    requires |r| > 0 && AllDigits(r) && |g| > 0 && AllDigits(g) && |b| > 0 && AllDigits(b)
    requires IsDecimalText(a)
    ensures RgbaToHex(RgbaCall(r, g, b, a)) == "#" + ToHex(r) + ToHex(g) + ToHex(b) + AlphaSuffix(a)
  {
    MatchOfRgbaCall(r, g, b, a);
    assert RgbaCall(r, g, b, a)[0] == 'r';
  }

  /** Worked cases of `toHex`: 255, 0 and 128 give "ff", "00" and "80". */
  lemma ToHexExamples()
    ensures ToHex("255") == "ff" && ToHex("0") == "00" && ToHex("128") == "80"
  {
    assert Decimal(255) == "255" by { assert Decimal(25) == "25"; }
    assert Decimal(128) == "128" by { assert Decimal(12) == "12"; }
    assert Decimal(0) == "0";
    ParseIntOfDecimal(255);
    ParseIntOfDecimal(0);
    ParseIntOfDecimal(128);
    assert HexString(255) == "ff";
    assert HexString(128) == "80";
  }

  /** A worked case of the alpha suffix: 0.5 * 255 = 127.5 rounds up to 128,
      which is "80". */
  lemma HalfAlphaSuffix()
    ensures AlphaSuffix("0.5") == "80"
  {
    var a := "0.5";
    LeadOfRun("0", ".5", IsDigit);
    LeadOfRun("5", [], IsDigit);
    assert ParseFloat(a) == Some(0.5) by {
      assert a[1..][1..] == "5" + [];
    }
    assert RoundHalfUp(0.5 * 255.0) == 128;
    assert Decimal(128) == "128" by { assert Decimal(12) == "12"; }
    ParseIntOfDecimal(128);
    assert HexString(128) == "80";
  }
}
