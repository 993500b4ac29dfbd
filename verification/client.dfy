/** The browser-side helpers of static/chat.js: the time label of a citation,
    the HTML entity encoder applied to every text shown, and the guard of the
    submit handler. */
module Client {
  import opened Results
  import opened Text
  import ChatPipeline

  // ---------------------------------------------------------------------------
  // formatTime
  // ---------------------------------------------------------------------------

  /** Hours, minutes and seconds of a duration. */
  datatype ClockParts = ClockParts(h: nat, m: nat, s: nat)

  /** `Math.floor(sec/3600)`, `Math.floor((sec%3600)/60)` and `sec%60` on
      whole non-negative seconds: the unique split with minutes and seconds below 60. */
  function PartsOf(n: nat): (p: ClockParts)
    ensures p.h * 3600 + p.m * 60 + p.s == n
    ensures p.m < 60 && p.s < 60
    ensures p.h > 0 <==> n >= 3600
  {
    var h, r := n / 3600, n % 3600;
    var m, s := r / 60, r % 60;
    assert n == h * 3600 + r;
    assert r == m * 60 + s;
    assert n == (h * 60 + m) * 60 + s;
    assert n % 60 == s;
    ClockParts(h, m, n % 60)
  }

  /** `String(x).padStart(2, '0')`. */
  function TwoDigits(x: nat): (r: string)
    requires x < 100
    ensures |r| == 2 && ParseNat(r) == Some(x)
  {
    var d := NatToString(x);
    ParseNatToString(x);
    if x < 10 then
      assert d == [DigitChar(x)];
      var r := PadStart(d, 2, '0');
      assert r == ['0', DigitChar(x)];
      DigitsValuePair('0', DigitChar(x));
      r
    else
      assert |d| == 2 by {
        assert NatToString(x / 10) == [DigitChar(x / 10)];
      }
      PadStart(d, 2, '0')
  }

  lemma DigitsValuePair(a: char, b: char)
    requires IsDigit(a) && IsDigit(b)
    ensures DigitsValue([a, b]) == DigitValue(a) * 10 + DigitValue(b)
  {
    assert [a][..0] == [];
    assert DigitsValue([a]) == DigitValue(a);
    assert [a, b][..1] == [a];
    assert DigitsValue([a, b]) == DigitsValue([a]) * 10 + DigitValue(b);
  }

  /** The label of a whole number of seconds: `h:MM:SS` from one hour on,
      `m:SS` below it. */
  function ClockText(n: nat): (r: string)
    ensures |r| >= 4 && r[|r| - 3] == ':' && r[|r| - 2..] == TwoDigits(n % 60)
  {
    var p := PartsOf(n);
    if p.h > 0 then NatToString(p.h) + ":" + TwoDigits(p.m) + ":" + TwoDigits(p.s)
    else NatToString(p.m) + ":" + TwoDigits(p.s)
  }

  /** The fields of a label: hours, minutes and seconds from one hour on,
      minutes (unpadded) and seconds below it. */
  lemma ClockTextFields(n: nat)
    ensures var p := PartsOf(n);
      n >= 3600 ==> Split(ClockText(n), ':') == [NatToString(p.h), TwoDigits(p.m), TwoDigits(p.s)]
    ensures var p := PartsOf(n);
      n < 3600 ==> Split(ClockText(n), ':') == [NatToString(p.m), TwoDigits(p.s)]
  {
    var p := PartsOf(n);
    if p.h > 0 {
      SplitThree(NatToString(p.h), TwoDigits(p.m), TwoDigits(p.s));
    } else {
      SplitTwo(NatToString(p.m), TwoDigits(p.s));
    }
  }

  lemma SplitThree(a: string, b: string, c: string)
    requires AllDigits(a) && AllDigits(b) && AllDigits(c)
    ensures Split(a + ":" + b + ":" + c, ':') == [a, b, c]
  {
    DigitsHaveNoColon(a);
    DigitsHaveNoColon(b);
    DigitsHaveNoColon(c);
    SplitNoSeparator(c, ':');
    assert a + ":" + b + ":" + c == a + [':'] + (b + [':'] + c);
    SplitAt(a, ':', b + [':'] + c);
    SplitAt(b, ':', c);
  }

  lemma SplitTwo(a: string, b: string)
    requires AllDigits(a) && AllDigits(b)
    ensures Split(a + ":" + b, ':') == [a, b]
  {
    DigitsHaveNoColon(a);
    DigitsHaveNoColon(b);
    SplitNoSeparator(b, ':');
    assert a + ":" + b == a + [':'] + b;
    SplitAt(a, ':', b);
  }

  /** Reading a label gives back its seconds. */
  lemma ParseClockText(n: nat)
    ensures ParseClock(ClockText(n)) == Some(n)
  {
    if n >= 3600 {
      ParseLongClockText(n);
    } else {
      ParseShortClockText(n);
    }
  }

  lemma ParseLongClockText(n: nat)
    requires n >= 3600
    ensures ParseClock(ClockText(n)) == Some(n)
  {
    var p := PartsOf(n);
    ClockTextFields(n);
    ParseNatToString(p.h);
    ParseClockLong(ClockText(n), p.h, p.m, p.s, n);
  }

  lemma ParseShortClockText(n: nat)
    requires n < 3600
    ensures ParseClock(ClockText(n)) == Some(n)
  {
    var p := PartsOf(n);
    assert p.h == 0;
    assert p.h * 3600 == 0;
    ClockTextFields(n);
    ParseNatToString(p.m);
    ParseClockShort(ClockText(n), p.m, p.s, n);
  }

  lemma ParseClockLong(t: string, h: nat, m: nat, s: nat, n: nat)
    requires m < 60 && s < 60 && n == h * 3600 + m * 60 + s
    requires var f := Split(t, ':');
      |f| == 3 && ParseNat(f[0]) == Some(h) && f[1] == TwoDigits(m) && f[2] == TwoDigits(s)
    ensures ParseClock(t) == Some(n)
  {
  }

  lemma ParseClockShort(t: string, m: nat, s: nat, n: nat)
    requires s < 60 && n == m * 60 + s
    requires var f := Split(t, ':');
      |f| == 2 && ParseNat(f[0]) == Some(m) && f[1] == TwoDigits(s)
    ensures ParseClock(t) == Some(n)
  {
  }

  lemma DigitsHaveNoColon(s: string)
    requires AllDigits(s)
    ensures ':' !in s
  {
  }

  /** Reads a label back: `h:MM:SS` or `m:SS`, with two-digit minutes and
      seconds fields below 60. */
  function ParseClock(t: string): Option<nat> {
    var f := Split(t, ':');
    if |f| == 3 then
      match (ParseNat(f[0]), ParseNat(f[1]), ParseNat(f[2]))
      case (Some(h), Some(m), Some(s)) =>
        if |f[1]| == 2 && |f[2]| == 2 && m < 60 && s < 60 then Some(h * 3600 + m * 60 + s) else None
      case _ => None
    else if |f| == 2 then
      match (ParseNat(f[0]), ParseNat(f[1]))
      case (Some(m), Some(s)) =>
        if |f[1]| == 2 && s < 60 then Some(m * 60 + s) else None
      case _ => None
    else
      None
  }

  /** `Math.floor(sec || 0)`: a missing value (`undefined`, `null`) counts as zero. */
  function WholeSeconds(sec: Option<real>): (n: nat)
    requires sec.Some? ==> sec.value >= 0.0
    ensures sec.None? ==> n == 0
    ensures sec.Some? ==> n as real <= sec.value < n as real + 1.0
  {
    match sec
    case None => 0
    case Some(x) => x.Floor
  }

  /** `formatTime(sec)`: the label of the start time of a citation. Its
      reading gives back the whole seconds. */
  function FormatTime(sec: Option<real>): (r: string)
    requires sec.Some? ==> sec.value >= 0.0
    ensures ParseClock(r) == Some(WholeSeconds(sec))
    ensures WholeSeconds(sec) == 0 ==> r == "0:00"
  {
    var n := WholeSeconds(sec);
    ParseClockText(n);
    ClockText(n)
  }

  /** Two labels are equal only for the same whole number of seconds. */
  lemma ClockTextInjective(a: nat, b: nat)
    requires a != b
    ensures ClockText(a) != ClockText(b)
  {
    ParseClockText(a);
    ParseClockText(b);
  }

  // ---------------------------------------------------------------------------
  // sanitize / escapeHtml
  // ---------------------------------------------------------------------------

  /** The five characters the encoder replaces. */
  predicate IsSpecial(c: char) {
    c == '&' || c == '<' || c == '>' || c == '"' || c == '\''
  }

  /** Characters that must not reach `innerHTML` unescaped. */
  predicate IsMarkup(c: char) {
    c == '<' || c == '>' || c == '"' || c == '\''
  }

  /** The replacement of one character. */
  function EscapeChar(c: char): (r: string)
    ensures |r| >= 1 && (r[0] == '&' <==> IsSpecial(c))
    ensures forall i :: 0 <= i < |r| ==> !IsMarkup(r[i])
    ensures forall i :: 1 <= i < |r| ==> r[i] != '&'
  {
    match c
    case '&' => "&amp;"
    case '<' => "&lt;"
    case '>' => "&gt;"
    case '"' => "&quot;"
    case '\'' => "&#039;"
    case _ => [c]
  }

  predicate NoSpecial(s: string) {
    forall i :: 0 <= i < |s| ==> !IsSpecial(s[i])
  }

  predicate NoMarkup(s: string) {
    forall i :: 0 <= i < |s| ==> !IsMarkup(s[i])
  }

  /** One of the five entities starts at position `i` of `t`. */
  predicate EntityAt(t: string, i: nat)
    requires i <= |t|
  {
    var rest := t[i..];
    IsPrefix("&amp;", rest) || IsPrefix("&lt;", rest) || IsPrefix("&gt;", rest)
    || IsPrefix("&quot;", rest) || IsPrefix("&#039;", rest)
  }

  predicate AmpersandsStartEntities(t: string) {
    forall i :: 0 <= i < |t| && t[i] == '&' ==> EntityAt(t, i)
  }

  /** `String(str).replace(/[&<>"']/g, ...)`: every character replaced by its
      entity, the others copied. */
  function Encode(s: string): (r: string)
    ensures |r| >= |s|
    ensures NoSpecial(s) ==> r == s
    ensures |r| == |s| ==> NoSpecial(s)
    ensures NoMarkup(r)
  {
    if s == [] then []
    else
      var e := EscapeChar(s[0]);
      var rest := Encode(s[1..]);
      var r := e + rest;
      assert NoMarkup(r) by {
        forall i | 0 <= i < |r|
          ensures !IsMarkup(r[i])
        {
          if i >= |e| {
            assert r[i] == rest[i - |e|];
          }
        }
      }
      assert NoSpecial(s) ==> r == s by {
        if NoSpecial(s) {
          assert NoSpecial(s[1..]);
          assert [s[0]] + s[1..] == s;
        }
      }
      assert |r| == |s| ==> NoSpecial(s) by {
        if |r| == |s| {
          assert |e| == 1 && |rest| == |s[1..]|;
          assert !IsSpecial(s[0]);
          assert NoSpecial(s[1..]);
          forall i | 0 <= i < |s|
            ensures !IsSpecial(s[i])
          {
            if i > 0 {
              assert s[i] == s[1..][i - 1];
            }
          }
        }
      }
      r
  }

  /** `sanitize(str)` on a string: empty for the empty string, the encoding otherwise.
      The result carries no markup character, it is the input itself exactly
      when the input has none of the five characters, and it decodes back. */
  function Sanitize(s: string): (r: string)
    ensures s == [] ==> r == []
    ensures NoMarkup(r)
    ensures r == s <==> NoSpecial(s)
    ensures AmpersandsStartEntities(r)
    ensures Unescape(r) == s
  {
    if s == [] then []
    else
      EncodeStartsEntities(s);
      UnescapeEncode(s);
      Encode(s)
  }

  /** `escapeHtml(s)`: the same encoder under another name. */
  function EscapeHtml(s: string): (r: string)
    ensures r == Sanitize(s)
    ensures Unescape(r) == s
  {
    Sanitize(s)
  }

  lemma {:induction false} EncodeStartsEntities(s: string)
    ensures AmpersandsStartEntities(Encode(s))
  {
    if s != [] {
      EncodeStartsEntities(s[1..]);
      var e := EscapeChar(s[0]);
      var rest := Encode(s[1..]);
      var t := e + rest;
      forall i | 0 <= i < |t| && t[i] == '&'
        ensures EntityAt(t, i)
      {
        if i >= |e| {
          assert t[i] == rest[i - |e|];
          assert t[i..] == rest[i - |e|..];
        } else {
          assert i == 0;
          assert t[..|e|] == e;
        }
      }
    }
  }

  /** The entity decoder: each of the five entities becomes its character;
      every other character is copied. */
  function Unescape(t: string): string
    decreases |t|
  {
    if t == [] then []
    else if t[0] != '&' then [t[0]] + Unescape(t[1..])
    else if IsPrefix("&amp;", t) then "&" + Unescape(t[5..])
    else if IsPrefix("&lt;", t) then "<" + Unescape(t[4..])
    else if IsPrefix("&gt;", t) then ">" + Unescape(t[4..])
    else if IsPrefix("&quot;", t) then "\"" + Unescape(t[6..])
    else if IsPrefix("&#039;", t) then "'" + Unescape(t[6..])
    else [t[0]] + Unescape(t[1..])
  }

  lemma UnescapeStep(c: char, rest: string)
    ensures Unescape(EscapeChar(c) + rest) == [c] + Unescape(rest)
  {
    match c
    case '&' => UnescapeEntity("&amp;", '&', rest);
    case '<' => UnescapeEntity("&lt;", '<', rest);
    case '>' => UnescapeEntity("&gt;", '>', rest);
    case '"' => UnescapeEntity("&quot;", '"', rest);
    case '\'' => UnescapeEntity("&#039;", '\'', rest);
    case _ =>
      var t := [c] + rest;
      assert t[0] == c && t[1..] == rest;
  }

  /** An entity at the front decodes to its character. */
  lemma UnescapeEntity(e: string, c: char, rest: string)
    requires IsSpecial(c) && e == EscapeChar(c)
    ensures Unescape(e + rest) == [c] + Unescape(rest)
  {
    var t := e + rest;
    assert t[..|e|] == e && t[|e|..] == rest;
    assert t[1] == e[1];
    DiffersAtOne("&amp;", t);
    DiffersAtOne("&lt;", t);
    DiffersAtOne("&gt;", t);
    DiffersAtOne("&quot;", t);
  }

  lemma DiffersAtOne(p: string, t: string)
    ensures |p| >= 2 && |t| >= 2 && p[1] != t[1] ==> !IsPrefix(p, t)
  {
    if |p| >= 2 && |t| >= 2 && IsPrefix(p, t) {
      assert t[..|p|][1] == t[1];
    }
  }

  lemma {:induction false} UnescapeEncode(s: string)
    ensures Unescape(Encode(s)) == s
  {
    if s != [] {
      UnescapeEncode(s[1..]);
      UnescapeStep(s[0], Encode(s[1..]));
      assert [s[0]] + s[1..] == s;
    }
  }

  /** Different texts are shown differently. */
  lemma SanitizeInjective(a: string, b: string)
    requires Sanitize(a) == Sanitize(b)
    ensures a == b
  {
    assert Unescape(Sanitize(a)) == a;
  }

  // ---------------------------------------------------------------------------
  // The submit guard
  // ---------------------------------------------------------------------------

  datatype SubmitOutcome = Ignored | Sent(message: string)

  /** The submit handler: `input.value.trim()`; nothing happens for a blank
      input, otherwise the trimmed text is shown and posted as `message`. */
  function Submit(value: string): (o: SubmitOutcome)
    ensures o.Ignored? <==> AllSpace(value, IsJsSpace)
    ensures o.Sent? ==> o.message != []
    ensures o.Sent? ==> !IsJsSpace(o.message[0]) && !IsJsSpace(o.message[|o.message| - 1])
    ensures o.Sent? ==>
      exists lo, hi ::
        && 0 <= lo <= hi <= |value| && o.message == value[lo..hi]
        && (forall i :: 0 <= i < lo ==> IsJsSpace(value[i]))
        && (forall i :: hi <= i < |value| ==> IsJsSpace(value[i]))
  {
    var text := Strip(value, IsJsSpace);
    if text == [] then Ignored else Sent(text)
  }

  /** Characters Python strips but JavaScript keeps. */
  predicate OnlyPythonStrips(c: char) {
    (0x1C <= c as int <= 0x1F) || c as int == 0x85
  }

  lemma WhitespaceDifference(c: char)
    ensures IsPySpace(c) && !IsJsSpace(c) <==> OnlyPythonStrips(c)
  {
  }

  /** The browser and the server use different whitespace: a message the
      browser sends can still be refused as empty by the server, and then it
      begins and ends with a character only Python counts as whitespace. */
  lemma SentButRefused(value: string)
    requires Submit(value).Sent?
    requires ChatPipeline.Message(Some(Submit(value).message)) == []
    ensures var t := Submit(value).message; OnlyPythonStrips(t[0]) && OnlyPythonStrips(t[|t| - 1])
  {
    var t := Submit(value).message;
    assert AllSpace(t, IsPySpace);
    WhitespaceDifference(t[0]);
    WhitespaceDifference(t[|t| - 1]);
  }

  /** Such a message exists: a lone U+001C. */
  lemma SentButRefusedExample()
    ensures Submit([28 as char]) == Sent([28 as char])
    ensures ChatPipeline.Message(Some([28 as char])) == []
  {
    var s := [28 as char];
    assert IsPySpace(s[0]);
    assert !IsJsSpace(s[0]);
    assert AllSpace(s, IsPySpace);
    assert SpaceRunEnd(s, IsJsSpace, 0) == 0;
    assert SpaceRunStart(s, IsJsSpace, 0, 1) == 1;
    assert Strip(s, IsJsSpace) == s;
  }
}
