/** String values on their way into a JSON template: marshalled without their quotes by the event
    stage, Tekton-escaped and spliced between two quotes of the template by the resource stage.
    Decoding follows section 7 of RFC 8259; an unpaired surrogate escape reads as U+FFFD. */
module JsonText {
  import opened Wrappers
  import opened Templates

  // ---- Writing a string --------------------------------------------------------------

  function HexDigit(n: int): char
    requires 0 <= n < 16
  {
    "0123456789abcdef"[n]
  }

  /** One character as the marshaller writes it; `oldQuotes` is the extra quoting of the old-escape
      annotation, which turns the already written `\"` into `\\"`. */
  function Written(c: char, oldQuotes: bool): (w: string)
    ensures w != ""
  {
    if c == '"' then (if oldQuotes then "\\\\\"" else "\\\"")
    else if c == '\\' then "\\\\"
    else if c == '\U{8}' then "\\b"
    else if c == '\U{C}' then "\\f"
    else if c == '\n' then "\\n"
    else if c == '\r' then "\\r"
    else if c == '\t' then "\\t"
    else if c < ' ' || c == '<' || c == '>' || c == '&' then
      "\\u00" + [HexDigit(c as int / 16), HexDigit(c as int % 16)]
    else if c == '\U{2028}' then "\\u2028"
    else if c == '\U{2029}' then "\\u2029"
    else [c]
  }

  /** A whole string, without the quotes around it. */
  function WrittenText(s: string, oldQuotes: bool): string {
    if s == "" then "" else Written(s[0], oldQuotes) + WrittenText(s[1..], oldQuotes)
  }

  // ---- Reading a string literal ------------------------------------------------------

  function HexValue(c: char): (n: int)
    ensures -1 <= n < 16
  {
    if '0' <= c <= '9' then c as int - '0' as int
    else if 'a' <= c <= 'f' then c as int - 'a' as int + 10
    else if 'A' <= c <= 'F' then c as int - 'A' as int + 10
    else -1
  }

  /** The code of a `\uXXXX` at the front, or -1. */
  function Code(s: string): (n: int)
    ensures -1 <= n < 0x10000
    ensures n >= 0 ==> |s| >= 6 && s[0] == '\\' && s[1] == 'u' && forall i :: 2 <= i < 6 ==> HexValue(s[i]) >= 0
  {
    if |s| >= 6 && s[0] == '\\' && s[1] == 'u'
       && HexValue(s[2]) >= 0 && HexValue(s[3]) >= 0 && HexValue(s[4]) >= 0 && HexValue(s[5]) >= 0
    then HexValue(s[2]) * 0x1000 + HexValue(s[3]) * 0x100 + HexValue(s[4]) * 0x10 + HexValue(s[5])
    else -1
  }

  predicate High(n: int) { 0xD800 <= n < 0xDC00 }

  predicate Low(n: int) { 0xDC00 <= n < 0xE000 }

  datatype Unit = Bad | Unit(len: nat, c: char)

  /** The first character of a non-empty literal and how many characters of text write it. */
  function FirstUnit(s: string): (u: Unit)
    requires s != ""
    ensures u.Unit? ==> 1 <= u.len <= |s|
  {
    if s[0] == '"' || s[0] < ' ' then Bad
    else if s[0] != '\\' then Unit(1, s[0])
    else if Code(s) >= 0 then
      if High(Code(s)) then
        if Low(Code(s[6..])) then Unit(12, Joined(Code(s), Code(s[6..]))) else Unit(6, '\U{FFFD}')
      else if Low(Code(s)) then Unit(6, '\U{FFFD}')
      else Unit(6, Code(s) as char)
    else if |s| < 2 then Bad
    else
      match s[1]
      case '"' => Unit(2, '"')
      case '\\' => Unit(2, '\\')
      case '/' => Unit(2, '/')
      case 'b' => Unit(2, '\U{8}')
      case 'f' => Unit(2, '\U{C}')
      case 'n' => Unit(2, '\n')
      case 'r' => Unit(2, '\r')
      case 't' => Unit(2, '\t')
      case _ => Bad
  }

  function Joined(high: int, low: int): char
    requires High(high) && Low(low)
  {
    (0x10000 + (high - 0xD800) * 0x400 + (low - 0xDC00)) as char
  }

  /** What the text between the quotes of a literal stands for; `None` if it is not well formed. */
  function Decode(s: string): Option<string>
    decreases |s|
  {
    if s == "" then Some("")
    else
      var u := FirstUnit(s);
      if u.Bad? then None
      else
        var rest := Decode(s[u.len..]);
        if rest.None? then None else Some([u.c] + rest.value)
  }

  function Prepend(a: string, b: Option<string>): Option<string> {
    if b.None? then None else Some(a + b.value)
  }

  // ---- Reading back what was written -------------------------------------------------

  lemma HexRoundTrip(n: int)
    requires 0 <= n < 16
    ensures HexValue(HexDigit(n)) == n
  {
  }

  lemma ReadWritten(c: char, rest: string)
    ensures FirstUnit(Written(c, false) + rest) == Unit(|Written(c, false)|, c)
  {
    var w := Written(c, false);
    var s := w + rest;
    assert s[..|w|] == w;
    assert forall i :: 0 <= i < |w| ==> s[i] == w[i];
    if |w| == 6 { CodeOfWritten(c, s); }
  }

  lemma CodeOfWritten(c: char, s: string)
    requires |Written(c, false)| == 6 && Written(c, false) <= s
    ensures Code(s) == c as int && c as int < 0xD800 && s[0] == '\\'
  {
    var w := Written(c, false);
    assert forall i :: 0 <= i < 6 ==> s[i] == w[i];
    if c != '\U{2028}' && c != '\U{2029}' {
      HexRoundTrip(c as int / 16);
      HexRoundTrip(c as int % 16);
    }
  }

  lemma DecodeUnit(s: string, n: nat, c: char)
    requires s != "" && FirstUnit(s) == Unit(n, c)
    ensures n <= |s| && Decode(s) == Prepend([c], Decode(s[n..]))
  {
  }

  lemma PrependTwice(a: string, b: string, d: Option<string>)
    ensures Prepend(a, Prepend(b, d)) == Prepend(a + b, d)
  {
    if d.Some? { assert a + (b + d.value) == (a + b) + d.value; }
  }

  lemma {:induction false} DecodeWritten(s: string, rest: string)
    ensures Decode(WrittenText(s, false) + rest) == Prepend(s, Decode(rest))
    decreases |s|
  {
    hide FirstUnit;
    hide Written;
    hide Decode;
    if s == "" {
      assert WrittenText(s, false) + rest == rest;
      if Decode(rest).Some? { assert s + Decode(rest).value == Decode(rest).value; }
    } else {
      var w := Written(s[0], false);
      var tail := WrittenText(s[1..], false) + rest;
      assert WrittenText(s, false) + rest == w + tail;
      ReadWritten(s[0], tail);
      DecodeUnit(w + tail, |w|, s[0]);
      assert (w + tail)[|w|..] == tail;
      DecodeWritten(s[1..], rest);
      PrependTwice([s[0]], s[1..], Decode(rest));
      assert [s[0]] + s[1..] == s;
    }
  }

  lemma {:induction false} QuoteEnds(tail: string)
    ensures Decode("\\\\\"" + tail) == None
  {
    var all := "\\\\\"" + tail;
    assert all[0] == '\\' && all[1] == '\\' && all[2] == '"';
    assert all[2..][0] == '"';
    assert FirstUnit(all) == Unit(2, '\\');
    DecodeUnit(all, 2, '\\');
    assert Decode(all[2..]) == None;
  }

  /** With old-escape, a quote in the value ends the literal. */
  lemma {:induction false} DecodeOldQuote(s: string, rest: string)
    requires '"' in s
    ensures Decode(WrittenText(s, true) + rest) == None
    decreases |s|
  {
    var w := Written(s[0], true);
    var tail := WrittenText(s[1..], true) + rest;
    var all := w + tail;
    assert WrittenText(s, true) + rest == all;
    assert all[..|w|] == w;
    if s[0] == '"' {
      QuoteEnds(tail);
    } else {
      assert w == Written(s[0], false);
      ReadWritten(s[0], tail);
      assert all[|w|..] == tail;
      assert s == [s[0]] + s[1..];
      DecodeOldQuote(s[1..], rest);
    }
  }

  // ---- Tekton escaping commutes with writing -----------------------------------------

  lemma WrittenPlain(c: char, oldQuotes: bool)
    ensures c == '$' || c == '(' ==> Written(c, oldQuotes) == [c]
    ensures c != '$' ==> forall i :: 0 <= i < |Written(c, oldQuotes)| ==> Written(c, oldQuotes)[i] != '$'
    ensures c != '(' ==> Written(c, oldQuotes)[0] != '('
  {
  }

  lemma {:induction false} SkipPlain(w: string, rest: string)
    requires forall i :: 0 <= i < |w| ==> w[i] != '$'
    ensures EscapeTekton(w + rest) == w + EscapeTekton(rest)
    decreases |w|
  {
    if w == "" {
      assert w + rest == rest;
    } else {
      assert (w + rest)[1..] == w[1..] + rest;
      SkipPlain(w[1..], rest);
      assert [w[0]] + (w[1..] + EscapeTekton(rest)) == w + EscapeTekton(rest);
    }
  }

  /** Escaping before writing is escaping after writing. */
  lemma {:induction false} EscapeCommutes(s: string, oldQuotes: bool)
    ensures EscapeTekton(WrittenText(s, oldQuotes)) == WrittenText(EscapeTekton(s), oldQuotes)
    decreases |s|
  {
    if s == "" {
    } else {
      var t := WrittenText(s, oldQuotes);
      WrittenPlain(s[0], oldQuotes);
      if s[0] != '$' {
        EscapeCommutes(s[1..], oldQuotes);
        SkipPlain(Written(s[0], oldQuotes), WrittenText(s[1..], oldQuotes));
        assert EscapeTekton(s) == [s[0]] + EscapeTekton(s[1..]);
        assert EscapeTekton(s)[1..] == EscapeTekton(s[1..]);
      } else if "$(" <= s {
        OpenWritten(s, oldQuotes);
        EscapeCommutes(s[2..], oldQuotes);
      } else {
        EscapeCommutes(s[1..], oldQuotes);
        ClosedWritten(s, oldQuotes);
        assert EscapeTekton(s) == "$" + EscapeTekton(s[1..]);
        assert EscapeTekton(s)[1..] == EscapeTekton(s[1..]);
        assert t[1..] == WrittenText(s[1..], oldQuotes);
      }
    }
  }

  lemma {:induction false} WrittenCons(c: char, s: string, oldQuotes: bool)
    requires c == '$' || c == '('
    ensures WrittenText([c] + s, oldQuotes) == [c] + WrittenText(s, oldQuotes)
  {
    WrittenPlain(c, oldQuotes);
    assert ([c] + s)[1..] == s;
  }

  lemma {:induction false} OpenWritten(s: string, oldQuotes: bool)
    requires "$(" <= s
    ensures EscapeTekton(WrittenText(s, oldQuotes)) == "$$(" + EscapeTekton(WrittenText(s[2..], oldQuotes))
    ensures WrittenText(EscapeTekton(s), oldQuotes) == "$$(" + WrittenText(EscapeTekton(s[2..]), oldQuotes)
  {
    hide WrittenText;
    var r := s[2..];
    assert s == "$" + ("(" + r);
    WrittenCons('(', r, oldQuotes);
    WrittenCons('$', "(" + r, oldQuotes);
    var t := WrittenText(r, oldQuotes);
    assert WrittenText(s, oldQuotes) == "$" + ("(" + t) == "$(" + t;
    assert ("$(" + t)[2..] == t && "$(" <= "$(" + t;
    var e := EscapeTekton(r);
    assert EscapeTekton(s) == "$" + ("$" + ("(" + e));
    WrittenCons('(', e, oldQuotes);
    WrittenCons('$', "(" + e, oldQuotes);
    WrittenCons('$', "$" + ("(" + e), oldQuotes);
    assert "$" + ("$" + ("(" + WrittenText(e, oldQuotes))) == "$$(" + WrittenText(e, oldQuotes);
  }

  lemma ClosedWritten(s: string, oldQuotes: bool)
    requires s != "" && s[0] == '$' && !("$(" <= s)
    ensures !("$(" <= WrittenText(s, oldQuotes))
  {
    var t := WrittenText(s, oldQuotes);
    assert t == "$" + WrittenText(s[1..], oldQuotes);
    if |s| > 1 {
      WrittenPlain(s[1], oldQuotes);
      assert t[1] == Written(s[1], oldQuotes)[0];
    }
  }

  /** The marshalled text is safe inside HTML and scripts, and holds no control characters. */
  lemma {:induction false} WrittenIsSafe(s: string, i: nat)
    requires i < |WrittenText(s, false)|
    ensures SafeChar(WrittenText(s, false)[i])
    decreases |s|
  {
    var w := Written(s[0], false);
    hide SafeChar, Written;
    if i < |w| {
      WrittenCharIsSafe(s[0], i);
    } else {
      WrittenIsSafe(s[1..], i - |w|);
    }
  }

  predicate SafeChar(c: char) {
    c >= ' ' && c != '<' && c != '>' && c != '&' && c != '\U{2028}' && c != '\U{2029}'
  }

  lemma HexIsSafe(n: int)
    requires 0 <= n < 16
    ensures SafeChar(HexDigit(n))
  {
  }

  lemma WrittenCharIsSafe(c: char, i: nat)
    requires i < |Written(c, false)|
    ensures SafeChar(Written(c, false)[i])
  {
    if c < ' ' || c == '<' || c == '>' || c == '&' {
      HexIsSafe(c as int / 16);
      HexIsSafe(c as int % 16);
      hide HexDigit;
    }
  }
}
