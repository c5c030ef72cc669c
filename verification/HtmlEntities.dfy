/** `htmlEntities`: whole-string replacements, one after the other, that must not see each other's results. */
module HtmlEntities {

  /** `str.replace(find, replacement)` for a text of one character. */
  function Replaced(s: string, find: char, replacement: string): string {
    if s == "" then ""
    else (if s[0] == find then replacement else [s[0]]) + Replaced(s[1..], find, replacement)
  }

  /** The replacements in the order of the source. */
  function Sequential(s: string, whitespace: bool): string {
    var s1 := Replaced(s, '&', "&amp;");
    var s2 := Replaced(s1, '<', "&lt;");
    var s3 := Replaced(s2, '>', "&gt;");
    var s4 := Replaced(s3, '\'', "&#39;");
    if whitespace then Replaced(s4, ' ', "&#160;") else s4
  }

  /** What one character stands for in the result. */
  function Entity(c: char, whitespace: bool): string {
    if c == '&' then "&amp;"
    else if c == '<' then "&lt;"
    else if c == '>' then "&gt;"
    else if c == '\'' then "&#39;"
    else if c == ' ' && whitespace then "&#160;"
    else [c]
  }

  /** All characters replaced at once. */
  function Escape(s: string, whitespace: bool): string {
    if s == "" then "" else Entity(s[0], whitespace) + Escape(s[1..], whitespace)
  }

  lemma {:induction false} ReplacedConcat(a: string, b: string, find: char, replacement: string)
    ensures Replaced(a + b, find, replacement) == Replaced(a, find, replacement) + Replaced(b, find, replacement)
  {
    if a == "" {
      assert a + b == b;
    } else {
      assert (a + b)[1..] == a[1..] + b;
      ReplacedConcat(a[1..], b, find, replacement);
    }
  }

  /** A text without the character stays as it is. */
  lemma {:induction false} ReplacedSame(s: string, find: char, replacement: string)
    requires find !in s
    ensures Replaced(s, find, replacement) == s
  {
    if s != "" {
      ReplacedSame(s[1..], find, replacement);
    }
  }

  lemma ReplacedOne(c: char, find: char, replacement: string)
    ensures c == find ==> Replaced([c], find, replacement) == replacement
    ensures c != find ==> Replaced([c], find, replacement) == [c]
  {
    assert [c][1..] == "";
  }

  lemma SequentialConcat(a: string, b: string, whitespace: bool)
    ensures Sequential(a + b, whitespace) == Sequential(a, whitespace) + Sequential(b, whitespace)
  {
    var (a1, b1) := (Replaced(a, '&', "&amp;"), Replaced(b, '&', "&amp;"));
    var (a2, b2) := (Replaced(a1, '<', "&lt;"), Replaced(b1, '<', "&lt;"));
    var (a3, b3) := (Replaced(a2, '>', "&gt;"), Replaced(b2, '>', "&gt;"));
    ReplacedConcat(a, b, '&', "&amp;");
    ReplacedConcat(a1, b1, '<', "&lt;");
    ReplacedConcat(a2, b2, '>', "&gt;");
    ReplacedConcat(a3, b3, '\'', "&#39;");
    ReplacedConcat(Replaced(a3, '\'', "&#39;"), Replaced(b3, '\'', "&#39;"), ' ', "&#160;");
    hide Replaced;
  }

  /** No later replacement touches what an earlier one has put in. */
  lemma SequentialOne(c: char, whitespace: bool)
    ensures Sequential([c], whitespace) == Entity(c, whitespace)
  {
    hide Replaced;
    if c == '&' {
      ReplacedOne(c, '&', "&amp;");
      Untouched("&amp;");
    } else {
      ReplacedOne(c, '&', "&amp;");
      if c == '<' {
        ReplacedOne(c, '<', "&lt;");
        Untouched("&lt;");
      } else {
        ReplacedOne(c, '<', "&lt;");
        SequentialRest(c, whitespace);
      }
    }
  }

  /** The last three replacements on a character the first two leave alone. */
  lemma SequentialRest(c: char, whitespace: bool)
    requires c != '&' && c != '<'
    ensures var s4 := Replaced(Replaced([c], '>', "&gt;"), '\'', "&#39;");
      (if whitespace then Replaced(s4, ' ', "&#160;") else s4) == Entity(c, whitespace)
  {
    hide Replaced;
    if c == '>' {
      ReplacedOne(c, '>', "&gt;");
      Untouched("&gt;");
    } else {
      ReplacedOne(c, '>', "&gt;");
      if c == '\'' {
        ReplacedOne(c, '\'', "&#39;");
        Untouched("&#39;");
      } else {
        ReplacedOne(c, '\'', "&#39;");
        ReplacedOne(c, ' ', "&#160;");
      }
    }
  }

  lemma Untouched(t: string)
    requires '<' !in t && '>' !in t && '\'' !in t && ' ' !in t
    ensures Replaced(t, '<', "&lt;") == t && Replaced(t, '>', "&gt;") == t && Replaced(t, '\'', "&#39;") == t
    ensures Replaced(t, ' ', "&#160;") == t
  {
    ReplacedSame(t, '<', "&lt;");
    ReplacedSame(t, '>', "&gt;");
    ReplacedSame(t, '\'', "&#39;");
    ReplacedSame(t, ' ', "&#160;");
  }

  /** Main result: the sequence of replacements is the one simultaneous replacement. */
  lemma {:induction false} SequentialIsEscape(s: string, whitespace: bool)
    ensures Sequential(s, whitespace) == Escape(s, whitespace)
  {
    if s == "" {
      ReplacedSame("", '&', "&amp;");
      Untouched("");
    } else {
      SequentialOne(s[0], whitespace);
      SequentialConcat([s[0]], s[1..], whitespace);
      SequentialIsEscape(s[1..], whitespace);
      assert s == [s[0]] + s[1..];
      hide Sequential, Entity;
    }
  }

  /** The order is what makes it so: with `&` last, every entity put in before is broken. */
  lemma OrderMatters()
    ensures Replaced(Replaced("<", '<', "&lt;"), '&', "&amp;") == "&amp;lt;" != Escape("<", false)
  {
    ReplacedOne('<', '<', "&lt;");
    ReplacedOne('&', '&', "&amp;");
    ReplacedSame("lt;", '&', "&amp;");
    ReplacedConcat("&", "lt;", '&', "&amp;");
    assert "&lt;" == "&" + "lt;";
    assert "<"[1..] == "";
  }

  // ---------------------------------------------------------------- what the result contains

  lemma {:induction false} EscapeContains(s: string, whitespace: bool)
    ensures forall c :: c in {'<', '>', '\''} ==> c !in Escape(s, whitespace)
    ensures whitespace ==> ' ' !in Escape(s, whitespace)
  {
    if s != "" {
      EscapeContains(s[1..], whitespace);
      EntityContains(s[0], whitespace);
      hide Entity;
    }
  }

  lemma EntityContains(c: char, whitespace: bool)
    ensures forall d :: d in {'<', '>', '\''} ==> d !in Entity(c, whitespace)
    ensures whitespace ==> ' ' !in Entity(c, whitespace)
  {
  }

  // ---------------------------------------------------------------- the way back

  /** What a browser shows: the five references are read as characters, anything else as itself. */
  function Unescape(t: string): string
    decreases |t|
  {
    if t == "" then ""
    else if "&amp;" <= t then "&" + Unescape(t[5..])
    else if "&lt;" <= t then "<" + Unescape(t[4..])
    else if "&gt;" <= t then ">" + Unescape(t[4..])
    else if "&#39;" <= t then "'" + Unescape(t[5..])
    else if "&#160;" <= t then " " + Unescape(t[6..])
    else [t[0]] + Unescape(t[1..])
  }

  lemma UnescapeEntity(c: char, whitespace: bool, rest: string)
    ensures Unescape(Entity(c, whitespace) + rest) == [c] + Unescape(rest)
  {
    var t := Entity(c, whitespace) + rest;
    assert t[|Entity(c, whitespace)|..] == rest;
    if c == '&' {
      assert t[..5] == "&amp;";
    } else if c == '<' {
      assert t[1] == 'l';
      assert t[..4] == "&lt;";
    } else if c == '>' {
      assert t[1] == 'g';
      assert t[..4] == "&gt;";
    } else if c == '\'' {
      assert t[1] == '#' && t[2] == '3';
      assert t[..5] == "&#39;";
    } else if c == ' ' && whitespace {
      assert t[1] == '#' && t[2] == '1';
      assert t[..6] == "&#160;";
    } else {
      assert t[0] == c != '&';
    }
  }

  /** Main result: in both modes every text comes back. */
  lemma {:induction false} RoundTrip(s: string, whitespace: bool)
    ensures Unescape(Escape(s, whitespace)) == s
  {
    if s != "" {
      RoundTrip(s[1..], whitespace);
      UnescapeEntity(s[0], whitespace, Escape(s[1..], whitespace));
      hide Unescape, Entity;
    }
  }

  /** So different texts never look the same, not even across the two modes. */
  lemma Injective(a: string, inA: bool, b: string, inB: bool)
    ensures Escape(a, inA) == Escape(b, inB) ==> a == b
  {
    RoundTrip(a, inA);
    RoundTrip(b, inB);
  }

  /** `htmlEntities` */
  method HtmlEntities(text: string, whitespace: bool) returns (str: string)
    ensures str == Escape(text, whitespace)
  {
    SequentialIsEscape(text, whitespace);
    str := text;
    str := Replaced(str, '&', "&amp;");
    str := Replaced(str, '<', "&lt;");
    str := Replaced(str, '>', "&gt;");
    str := Replaced(str, '\'', "&#39;");
    if whitespace {
      str := Replaced(str, ' ', "&#160;");
    }
  }
}
