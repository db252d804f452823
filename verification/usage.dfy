/**
  Usage and help logic of turbo/flags/internal/usage.cc: XML escaping of help
  text, the word-wrapping printer of the human-readable help, the recognition
  of the usage flags (`--help`, `--helpfull`, `--version`, ...) and the return
  code of `HandleUsageFlags`.

  Output streams become strings: every printing operation returns the text it
  writes. The help globals guarded by a mutex become a plain `HelpState`
  record that is passed in and returned.
*/
module Usage {
  import Common

  /** `kHrfMaxLineLength`: the line width of the human-readable help. */
  const HrfMaxLineLength: nat := 80

  // ---------------------------------------------------------------------------
  // XML escaping (the predefined entities of section 4.6 of XML 1.0).

  /** The characters `XMLElement` replaces by an entity reference. */
  predicate IsSpecial(c: char)
  {
    c == '"' || c == '\'' || c == '&' || c == '<' || c == '>'
  }

  /** The five predefined entity references. */
  const Entities: seq<string> := ["&quot;", "&apos;", "&amp;", "&lt;", "&gt;"]

  /** What `XMLElement` writes for one character of the text. */
  function EscapeChar(c: char): (r: string)
    ensures IsSpecial(c) ==> r in Entities
    ensures !IsSpecial(c) ==> r == [c]
  {
    match c
    case '"' => "&quot;"
    case '\'' => "&apos;"
    case '&' => "&amp;"
    case '<' => "&lt;"
    case '>' => "&gt;"
    case _ => [c]
  }

  /** The escaped text, character by character. */
  function XmlEscape(text: string): (r: string)
    ensures |r| >= |text|
  {
    if |text| == 0 then "" else EscapeChar(text[0]) + XmlEscape(text[1..])
  }

  /** The characters that may not appear raw in XML character data or attribute values. */
  predicate IsRawMarkup(c: char)
  {
    c == '<' || c == '>' || c == '"' || c == '\''
  }

  /** The escape of one character holds no raw markup. */
  lemma EscapedCharIsMarkupFree(c: char, k: nat)
    requires k < |EscapeChar(c)|
    ensures !IsRawMarkup(EscapeChar(c)[k])
  {
  }

  /** The escaped text holds no raw '<', '>', '"' or '\''. */
  lemma {:induction false} EscapedTextIsMarkupFree(text: string)
    ensures forall k :: 0 <= k < |XmlEscape(text)| ==> !IsRawMarkup(XmlEscape(text)[k])
    decreases |text|
  {
    if |text| > 0 {
      var head := EscapeChar(text[0]);
      var rest := XmlEscape(text[1..]);
      var r := XmlEscape(text);
      EscapedTextIsMarkupFree(text[1..]);
      forall k | 0 <= k < |r|
        ensures !IsRawMarkup(r[k])
      {
        if k < |head| {
          assert r[k] == head[k];
          EscapedCharIsMarkupFree(text[0], k);
        } else {
          assert r[k] == rest[k - |head|];
        }
      }
    }
  }

  /** `operator<<(out, XMLElement(tag, txt))`: the text, escaped, between an opening and a closing tag. */
  function XmlElement(tag: string, text: string): (r: string)
    ensures |r| == 2 * |tag| + 5 + |XmlEscape(text)|
  {
    "<" + tag + ">" + XmlEscape(text) + "</" + tag + ">"
  }

  /** `t` begins with one of the five entity references. */
  predicate BeginsEntity(t: string)
  {
    "&quot;" <= t || "&apos;" <= t || "&amp;" <= t || "&lt;" <= t || "&gt;" <= t
  }

  /** An entity reference starts at position `k` of `s`. */
  predicate EntityAt(s: string, k: nat)
  {
    k <= |s| && BeginsEntity(s[k..])
  }

  /** Within the escape of one character, a '&' can only be the start of an entity reference. */
  lemma EscapedAmpersandStartsEntity(c: char, k: nat)
    requires k < |EscapeChar(c)| && EscapeChar(c)[k] == '&'
    ensures k == 0 && EscapeChar(c) in Entities
  {
  }

  /** An entity reference at the front of a text. */
  lemma EntityAtFront(e: string, rest: string)
    requires e in Entities
    ensures EntityAt(e + rest, 0)
  {
    assert (e + rest)[0..] == e + rest;
    assert e <= e + rest;
  }

  /** An entity reference stays one when text is put before it. */
  lemma EntityAtShift(head: string, rest: string, k: nat)
    requires |head| <= k && EntityAt(rest, k - |head|)
    ensures EntityAt(head + rest, k)
  {
    DropOfSecond(head, rest, k);
  }

  /** Dropping past the first part of a concatenation drops into the second. */
  lemma DropOfSecond<T>(a: seq<T>, b: seq<T>, k: nat)
    requires |a| <= k <= |a| + |b|
    ensures (a + b)[k..] == b[k - |a|..]
  {
  }

  /** The '&' at position `k` of the escaped text begins an entity reference. */
  lemma {:induction false} AmpersandBeginsEntity(text: string, k: nat)
    requires k < |XmlEscape(text)| && XmlEscape(text)[k] == '&'
    ensures EntityAt(XmlEscape(text), k)
    decreases |text|
  {
    var head := EscapeChar(text[0]);
    var rest := XmlEscape(text[1..]);
    assert XmlEscape(text) == head + rest;
    if k < |head| {
      EscapedAmpersandStartsEntity(text[0], k);
      EntityAtFront(head, rest);
    } else {
      AmpersandBeginsEntity(text[1..], k - |head|);
      EntityAtShift(head, rest, k);
    }
  }

  /** Every '&' of the escaped text begins an entity reference. */
  lemma AmpersandsBeginEntities(text: string)
    ensures forall k :: 0 <= k < |XmlEscape(text)| && XmlEscape(text)[k] == '&' ==> EntityAt(XmlEscape(text), k)
  {
    forall k | 0 <= k < |XmlEscape(text)| && XmlEscape(text)[k] == '&'
      ensures EntityAt(XmlEscape(text), k)
    {
      AmpersandBeginsEntity(text, k);
    }
  }

  /** Reads entity references back into the characters they stand for; anything else is copied. */
  function XmlUnescape(s: string): string
  {
    if |s| == 0 then ""
    else if "&quot;" <= s then "\"" + XmlUnescape(s[6..])
    else if "&apos;" <= s then "'" + XmlUnescape(s[6..])
    else if "&amp;" <= s then "&" + XmlUnescape(s[5..])
    else if "&lt;" <= s then "<" + XmlUnescape(s[4..])
    else if "&gt;" <= s then ">" + XmlUnescape(s[4..])
    else [s[0]] + XmlUnescape(s[1..])
  }

  /** A text that begins with `e` does not begin with `f` when they differ at position `i`. */
  lemma NotPrefixAt(e: string, f: string, s: string, i: nat)
    requires e <= s && i < |e| && i < |f| && e[i] != f[i]
    ensures !(f <= s)
  {
    assert s[i] == e[i];
  }

  /** Unescaping an escaped character followed by anything reads the character back. */
  lemma UnescapeEscapedChar(c: char, rest: string)
    ensures XmlUnescape(EscapeChar(c) + rest) == [c] + XmlUnescape(rest)
  {
    var e := EscapeChar(c);
    var s := e + rest;
    assert e <= s && s[|e|..] == rest;
    if c == '"' {
    } else if c == '\'' {
      NotPrefixAt(e, "&quot;", s, 1);
    } else if c == '&' {
      NotPrefixAt(e, "&quot;", s, 1);
      NotPrefixAt(e, "&apos;", s, 2);
    } else if c == '<' {
      NotPrefixAt(e, "&quot;", s, 1);
      NotPrefixAt(e, "&apos;", s, 1);
      NotPrefixAt(e, "&amp;", s, 1);
    } else if c == '>' {
      NotPrefixAt(e, "&quot;", s, 1);
      NotPrefixAt(e, "&apos;", s, 1);
      NotPrefixAt(e, "&amp;", s, 1);
      NotPrefixAt(e, "&lt;", s, 1);
    } else {
      assert e == [c];
      NotPrefixAt(e, "&quot;", s, 0);
      NotPrefixAt(e, "&apos;", s, 0);
      NotPrefixAt(e, "&amp;", s, 0);
      NotPrefixAt(e, "&lt;", s, 0);
      NotPrefixAt(e, "&gt;", s, 0);
    }
  }

  /** Escaping loses nothing: unescaping gives back the text. */
  lemma {:induction false} UnescapeEscape(text: string)
    ensures XmlUnescape(XmlEscape(text)) == text
    decreases |text|
  {
    if |text| > 0 {
      UnescapeEscapedChar(text[0], XmlEscape(text[1..]));
      UnescapeEscape(text[1..]);
      assert text == [text[0]] + text[1..];
    }
  }

  /** A special character is escaped to more than one character. */
  lemma SpecialCharGrows(c: char)
    ensures IsSpecial(c) <==> |EscapeChar(c)| > 1
  {
  }

  /** Escaping leaves a text as it is exactly when it holds none of the five special characters. */
  lemma {:induction false} EscapeKeepsExactlyPlainText(text: string)
    ensures XmlEscape(text) == text <==> forall k :: 0 <= k < |text| ==> !IsSpecial(text[k])
    ensures (exists k :: 0 <= k < |text| && IsSpecial(text[k])) ==> |XmlEscape(text)| > |text|
    decreases |text|
  {
    if |text| > 0 {
      EscapeKeepsExactlyPlainText(text[1..]);
      SpecialCharGrows(text[0]);
      assert XmlEscape(text) == EscapeChar(text[0]) + XmlEscape(text[1..]);
      if exists k :: 0 <= k < |text| && IsSpecial(text[k]) {
        var k :| 0 <= k < |text| && IsSpecial(text[k]);
        if k > 0 {
          assert IsSpecial(text[1..][k - 1]);
        }
      } else {
        PlainTextUnchanged(text);
      }
    }
  }

  /** The element is the opening tag, the escaped text and the closing tag, and the text can be read back. */
  lemma XmlElementDecodes(tag: string, text: string)
    ensures var r := XmlElement(tag, text);
      r[..|tag| + 2] == "<" + tag + ">" &&
      r[|r| - |tag| - 3..] == "</" + tag + ">" &&
      XmlUnescape(r[|tag| + 2..|r| - |tag| - 3]) == text
  {
    var r := XmlElement(tag, text);
    var open := "<" + tag + ">";
    var close := "</" + tag + ">";
    assert r == open + XmlEscape(text) + close;
    assert r[..|open|] == open;
    assert r[|r| - |close|..] == close;
    assert r[|open|..|r| - |close|] == XmlEscape(text);
    UnescapeEscape(text);
  }

  /** Text without special characters is written as it is. */
  lemma {:induction false} PlainTextUnchanged(t: string)
    requires forall k :: 0 <= k < |t| ==> !IsSpecial(t[k])
    ensures XmlEscape(t) == t
    decreases |t|
  {
    if |t| > 0 {
      assert !IsSpecial(t[0]);
      assert forall k :: 0 <= k < |t[1..]| ==> !IsSpecial(t[1..][k]) by {
        forall k | 0 <= k < |t[1..]| ensures !IsSpecial(t[1..][k]) {
          assert t[1..][k] == t[k + 1];
        }
      }
      PlainTextUnchanged(t[1..]);
      assert t == [t[0]] + t[1..];
    }
  }

  /** The pieces of the example, put together. */
  lemma MilkSpelledOut()
    ensures "<title>" + ("Milk " + "&amp;" + " Cookies") + "</title>" == "<title>Milk &amp; Cookies</title>"
  {
    var whole := "<title>" + ("Milk " + "&amp;" + " Cookies") + "</title>";
    var expected := "<title>Milk &amp; Cookies</title>";
    assert forall k :: 0 <= k < |whole| ==> whole[k] == expected[k];
  }

  /** The escaped text of the example, piece by piece. */
  lemma MilkEscaped(a: string, b: string, c: string)
    requires a == "Milk " && b == "&" && c == " Cookies"
    ensures XmlEscape(a + b + c) == "Milk " + "&amp;" + " Cookies"
  {
    assert XmlEscape(a + b + c) == XmlEscape(a) + XmlEscape(b) + XmlEscape(c) by {
      XmlEscapeConcat(a, b);
      XmlEscapeConcat(a + b, c);
    }
    assert XmlEscape(a) == a by {
      PlainTextUnchanged(a);
    }
    assert XmlEscape(c) == c by {
      PlainTextUnchanged(c);
    }
    assert XmlEscape(b) == "&amp;" by {
      assert XmlEscape(b) == "&amp;" + XmlEscape(b[1..]);
    }
  }

  /** The text of the example, cut around its ampersand. */
  lemma MilkPieces(text: string)
    requires text == "Milk & Cookies"
    ensures text == "Milk " + "&" + " Cookies"
  {
    var pieces := "Milk " + "&" + " Cookies";
    assert forall k :: 0 <= k < |text| ==> text[k] == pieces[k];
  }

  /** The opening and closing tags of the example. */
  lemma TitleTags(tag: string, body: string)
    requires tag == "title"
    ensures "<" + tag + ">" + body + "</" + tag + ">" == "<title>" + body + "</title>"
  {
    assert "<" + tag + ">" == "<title>";
    assert "</" + tag + ">" == "</title>";
  }

  /** The example of the class comment: "Milk & Cookies" under the tag "title". */
  lemma XmlElementExample(text: string)
    requires text == "Milk & Cookies"
    ensures XmlElement("title", text) == "<title>Milk &amp; Cookies</title>"
  {
    var body := "Milk " + "&amp;" + " Cookies";
    assert XmlEscape(text) == body by {
      MilkPieces(text);
      MilkEscaped("Milk ", "&", " Cookies");
    }
    assert XmlElement("title", text) == "<title>" + body + "</title>" by {
      TitleTags("title", XmlEscape(text));
    }
    MilkSpelledOut();
  }

  /** Escaping works character by character, so it distributes over concatenation. */
  lemma {:induction false} XmlEscapeConcat(a: string, b: string)
    ensures XmlEscape(a + b) == XmlEscape(a) + XmlEscape(b)
    decreases |a|
  {
    if |a| == 0 {
      assert a + b == b;
    } else {
      assert (a + b)[0] == a[0];
      assert (a + b)[1..] == a[1..] + b;
      XmlEscapeConcat(a[1..], b);
    }
  }

  // ---------------------------------------------------------------------------
  // The word-wrapping printer.

  /**
    `FlagHelpPrettyPrinter`: the layout parameters, the length of the current
    output line and whether a line has been started yet.
  */
  datatype Printer = Printer(maxLineLen: nat, minLineLen: nat, wrappedLineIndent: nat, lineLen: nat, firstLine: bool)

  /** The constructor: nothing written yet. */
  function NewPrinter(maxLineLen: nat, minLineLen: nat, wrappedLineIndent: nat): Printer
  {
    Printer(maxLineLen, minLineLen, wrappedLineIndent, 0, true)
  }

  /** The printer after an operation, and the text the operation wrote. */
  datatype Emitted = Emitted(printer: Printer, out: string)

  /** Two printers with the same layout parameters. */
  predicate SameLayout(p: Printer, q: Printer)
  {
    p.maxLineLen == q.maxLineLen && p.minLineLen == q.minLineLen && p.wrappedLineIndent == q.wrappedLineIndent
  }

  /** `std::string(n, ' ')`. */
  function Spaces(n: nat): (r: string)
    ensures |r| == n && forall k :: 0 <= k < n ==> r[k] == ' '
  {
    seq(n, _ => ' ')
  }

  /** The column the output is at after writing `s` from column `col`. */
  function ColumnAfter(col: nat, s: string): nat
    decreases |s|
  {
    if |s| == 0 then col
    else if s[0] == '\n' then ColumnAfter(0, s[1..])
    else ColumnAfter(col + 1, s[1..])
  }

  /** Writing `a` and then `b` moves the column as writing `a + b` does. */
  lemma {:induction false} ColumnAfterConcat(col: nat, a: string, b: string)
    ensures ColumnAfter(col, a + b) == ColumnAfter(ColumnAfter(col, a), b)
    decreases |a|
  {
    if |a| == 0 {
      assert a + b == b;
    } else {
      assert (a + b)[0] == a[0];
      assert (a + b)[1..] == a[1..] + b;
      ColumnAfterConcat(if a[0] == '\n' then 0 else col + 1, a[1..], b);
    }
  }

  /** Text without a line break advances the column by its length. */
  lemma {:induction false} ColumnAfterNoBreak(col: nat, s: string)
    requires '\n' !in s
    ensures ColumnAfter(col, s) == col + |s|
    decreases |s|
  {
    if |s| > 0 {
      assert s[0] in s;
      assert '\n' !in s[1..] by {
        forall k | 0 <= k < |s[1..]| ensures s[1..][k] != '\n' { assert s[1..][k] == s[k + 1]; }
      }
      ColumnAfterNoBreak(col + 1, s[1..]);
    }
  }

  /**
    `StartLine`: indents a fresh line, by `min_line_len` for the first line and
    by `min_line_len + wrapped_line_indent` for every later one.
  */
  function StartLine(p: Printer): (e: Emitted)
    ensures SameLayout(e.printer, p) && !e.printer.firstLine
    ensures e.printer.lineLen == if p.firstLine then p.minLineLen else p.minLineLen + p.wrappedLineIndent
    ensures e.out == Spaces(e.printer.lineLen)
  {
    var len := if p.firstLine then p.minLineLen else p.minLineLen + p.wrappedLineIndent;
    Emitted(p.(lineLen := len, firstLine := false), Spaces(len))
  }

  /** `EndLine`: a line break; the current line is empty again. */
  function EndLine(p: Printer): (e: Emitted)
    ensures e.out == "\n"
    ensures e.printer == p.(lineLen := 0)
  {
    Emitted(p.(lineLen := 0), "\n")
  }

  /**
    One iteration of the token loop of `Write`: "\n" ends the line; any other
    token goes on a new line when the current line is empty or would reach
    `max_line_len`, and after one space on the current line otherwise.
  */
  function WriteToken(p: Printer, token: string): (e: Emitted)
    ensures SameLayout(e.printer, p)
    ensures token == "\n" ==> e == EndLine(p)
    ensures token != "\n" && p.lineLen > 0 && p.lineLen + |token| < p.maxLineLen ==>
      e.out == " " + token && e.printer.lineLen == p.lineLen + 1 + |token| <= p.maxLineLen &&
      e.printer.firstLine == p.firstLine
    ensures token != "\n" && p.lineLen > 0 && p.lineLen + |token| >= p.maxLineLen ==>
      e.out == "\n" + StartLine(p).out + token && e.printer.lineLen == StartLine(p).printer.lineLen + |token|
    ensures token != "\n" && p.lineLen == 0 ==>
      e.out == StartLine(p).out + token && e.printer.lineLen == StartLine(p).printer.lineLen + |token|
    ensures token != "\n" ==> !e.printer.firstLine || (p.firstLine && e.printer.firstLine && p.lineLen > 0)
  {
    if token == "\n" then EndLine(p)
    else
      var breakFirst := p.lineLen != 0 && p.lineLen + |token| >= p.maxLineLen;
      var before := if breakFirst then EndLine(p) else Emitted(p, "");
      var started :=
        if before.printer.lineLen == 0 then StartLine(before.printer)
        else Emitted(before.printer.(lineLen := before.printer.lineLen + 1), " ");
      Emitted(started.printer.(lineLen := started.printer.lineLen + |token|), before.out + started.out + token)
  }

  /** The tokens written one after the other. */
  function WriteTokens(p: Printer, tokens: seq<string>): (e: Emitted)
    ensures SameLayout(e.printer, p)
    ensures tokens == [] ==> e == Emitted(p, "")
    decreases |tokens|
  {
    if |tokens| == 0 then Emitted(p, "")
    else
      var first := WriteToken(p, tokens[0]);
      var rest := WriteTokens(first.printer, tokens[1..]);
      Emitted(rest.printer, first.out + rest.out)
  }

  /** The non-empty pieces. */
  function NonEmpty(parts: seq<string>): (r: seq<string>)
    ensures forall k :: 0 <= k < |r| ==> r[k] != "" && r[k] in parts
    ensures forall x :: x in parts && x != "" ==> x in r
  {
    if |parts| == 0 then []
    else if parts[0] == "" then NonEmpty(parts[1..])
    else [parts[0]] + NonEmpty(parts[1..])
  }

  /** `StrSplit(line, ByAnyChar(" \t"), SkipEmpty())`: the words of a line. */
  function Words(line: string): (ws: seq<string>)
    ensures forall k :: 0 <= k < |ws| ==> ws[k] != "" && ' ' !in ws[k] && '\t' !in ws[k]
  {
    var parts := Common.SplitBy(line, {' ', '\t'});
    var ws := NonEmpty(parts);
    assert forall k :: 0 <= k < |ws| ==> ws[k] in parts;
    ws
  }

  /** A token of the wrapping tokenizer: a line separator or a word without whitespace. */
  predicate IsWrapToken(t: string)
  {
    t == "\n" || (t != "" && ' ' !in t && '\t' !in t && '\n' !in t && '\r' !in t)
  }

  /**
    The tokens of the lines read so far: the words of each line, with "\n"
    pushed before a line's words only once some token has been pushed, so
    leading empty lines leave no trace.
  */
  function TokensOfLines(lines: seq<string>): (ts: seq<string>)
    requires forall k :: 0 <= k < |lines| ==> '\n' !in lines[k] && '\r' !in lines[k]
    ensures forall k :: 0 <= k < |ts| ==> IsWrapToken(ts[k])
    ensures ts != [] ==> ts[0] != "\n"
    decreases |lines|
  {
    if |lines| == 0 then []
    else
      var prior := TokensOfLines(lines[..|lines| - 1]);
      var line := lines[|lines| - 1];
      var ws := Words(line);
      assert forall k :: 0 <= k < |ws| ==> '\n' !in ws[k] && '\r' !in ws[k] by {
        forall k | 0 <= k < |ws| ensures '\n' !in ws[k] && '\r' !in ws[k] {
          WordOfLineHasNoBreak(line, ws, k);
        }
      }
      (if prior != [] then prior + ["\n"] else prior) + ws
  }

  /** A word of a line holds no character the line does not hold. */
  lemma WordOfLineHasNoBreak(line: string, ws: seq<string>, k: nat)
    requires '\n' !in line && '\r' !in line
    requires ws == Words(line) && k < |ws|
    ensures '\n' !in ws[k] && '\r' !in ws[k]
  {
    var parts := Common.SplitBy(line, {' ', '\t'});
    assert ws[k] in parts;
    var j :| 0 <= j < |parts| && parts[j] == ws[k];
    SplitPiecesComeFromText(line, {' ', '\t'}, j);
  }

  /** Every character of a piece of a split occurs in the text. */
  lemma {:induction false} SplitPiecesComeFromText(s: string, seps: set<char>, j: nat)
    requires j < |Common.SplitBy(s, seps)|
    ensures forall c :: c in Common.SplitBy(s, seps)[j] ==> c in s
    decreases |s|
  {
    if |s| > 0 {
      var rest := Common.SplitBy(s[1..], seps);
      var parts := Common.SplitBy(s, seps);
      forall c | c in parts[j]
        ensures c in s
      {
        if s[0] in seps {
          if j > 0 {
            SplitPiecesComeFromText(s[1..], seps, j - 1);
            assert c in s[1..];
          }
        } else if j == 0 {
          if c != s[0] {
            SplitPiecesComeFromText(s[1..], seps, 0);
            assert c in rest[0];
          }
        } else {
          SplitPiecesComeFromText(s[1..], seps, j);
        }
      }
    }
  }

  /** The tokens `Write` produces: the whole text, or with `wrap_line` its lines' words and separators. */
  function Tokenize(str: string, wrapLine: bool): (ts: seq<string>)
    ensures wrapLine ==> forall k :: 0 <= k < |ts| ==> IsWrapToken(ts[k])
    ensures !wrapLine ==> ts == [str]
  {
    if wrapLine then
      var lines := Common.SplitBy(str, {'\n', '\r'});
      TokensOfLines(lines)
    else
      [str]
  }

  /** Dropping empty pieces does not change what they spell. */
  lemma {:induction false} FlattenNonEmpty(parts: seq<string>)
    ensures Common.Flatten(NonEmpty(parts)) == Common.Flatten(parts)
    decreases |parts|
  {
    if |parts| > 0 {
      FlattenNonEmpty(parts[1..]);
      if parts[0] != "" {
        assert ([parts[0]] + NonEmpty(parts[1..]))[1..] == NonEmpty(parts[1..]);
      }
    }
  }

  /** The words of a line, written back to back, are the line without its blanks and tabs. */
  lemma WordsSpellLine(line: string)
    ensures Common.Flatten(Words(line)) == Common.Without(line, {' ', '\t'})
  {
    FlattenNonEmpty(Common.SplitBy(line, {' ', '\t'}));
    Common.FlattenSplit(line, {' ', '\t'});
  }

  /** The tokens other than line separators, written back to back. */
  function Letters(ts: seq<string>): (r: string)
    ensures |ts| == 0 ==> r == ""
  {
    if |ts| == 0 then "" else (if ts[0] == "\n" then "" else ts[0]) + Letters(ts[1..])
  }

  /** `Letters` distributes over concatenation of token lists. */
  lemma {:induction false} LettersConcat(a: seq<string>, b: seq<string>)
    ensures Letters(a + b) == Letters(a) + Letters(b)
    decreases |a|
  {
    if |a| > 0 {
      assert (a + b)[0] == a[0] && (a + b)[1..] == a[1..] + b;
      LettersConcat(a[1..], b);
    } else {
      assert a + b == b;
    }
  }

  /** Without separator tokens, `Letters` is plain flattening. */
  lemma {:induction false} LettersOfWords(ws: seq<string>)
    requires forall k :: 0 <= k < |ws| ==> ws[k] != "\n"
    ensures Letters(ws) == Common.Flatten(ws)
    decreases |ws|
  {
    if |ws| > 0 {
      LettersOfWords(ws[1..]);
    }
  }

  /** The words of a line without line breaks hold no line break, so none is a separator token. */
  lemma WordsAreNotBreaks(line: string)
    requires '\n' !in line && '\r' !in line
    ensures forall k :: 0 <= k < |Words(line)| ==> '\n' !in Words(line)[k] && Words(line)[k] != "\n"
  {
    var ws := Words(line);
    forall k | 0 <= k < |ws|
      ensures '\n' !in ws[k] && ws[k] != "\n"
    {
      WordOfLineHasNoBreak(line, ws, k);
    }
  }

  /** One more line appends its words, after a separator once some token exists. */
  lemma TokensOfLinesStep(lines: seq<string>)
    requires forall k :: 0 <= k < |lines| ==> '\n' !in lines[k] && '\r' !in lines[k]
    requires |lines| > 0
    ensures var prior := TokensOfLines(lines[..|lines| - 1]);
      TokensOfLines(lines) == (if prior != [] then prior + ["\n"] else prior) + Words(lines[|lines| - 1])
  {
  }

  /**
    The wrapping tokenizer loses no character but blanks and tabs: its
    non-separator tokens spell the lines, written back to back, without them.
  */
  lemma {:induction false} TokensSpellLines(lines: seq<string>)
    requires forall k :: 0 <= k < |lines| ==> '\n' !in lines[k] && '\r' !in lines[k]
    ensures Letters(TokensOfLines(lines)) == Common.Without(Common.Flatten(lines), {' ', '\t'})
    decreases |lines|
  {
    if |lines| > 0 {
      var blanks := {' ', '\t'};
      var init, line := lines[..|lines| - 1], lines[|lines| - 1];
      var prior := TokensOfLines(init);
      var ws := Words(line);
      TokensOfLinesStep(lines);
      var front := if prior != [] then prior + ["\n"] else prior;
      assert Letters(front) == Letters(prior) by {
        if prior != [] {
          LettersConcat(prior, ["\n"]);
        }
      }
      assert Letters(ws) == Common.Without(line, blanks) by {
        WordsAreNotBreaks(line);
        LettersOfWords(ws);
        WordsSpellLine(line);
      }
      var all := TokensOfLines(lines);
      assert all == front + ws;
      LettersConcat(front, ws);
      var text := Common.Flatten(init);
      TokensSpellLines(init);
      assert Letters(all) == Common.Without(text, blanks) + Common.Without(line, blanks);
      Common.FlattenLast(lines);
      Common.WithoutConcat(text, line, blanks);
    }
  }

  /** Reference layout: the words of every line, consecutive lines separated by one "\n" token. */
  function JoinedLines(lines: seq<string>): (ts: seq<string>)
    decreases |lines|
  {
    if |lines| == 0 then []
    else if |lines| == 1 then Words(lines[0])
    else JoinedLines(lines[..|lines| - 1]) + ["\n"] + Words(lines[|lines| - 1])
  }

  /** The tokens after the leading line separators. */
  function DropLeadingBreaks(ts: seq<string>): (r: seq<string>)
    ensures r == [] || r[0] != "\n"
    ensures |r| <= |ts|
    ensures forall k :: 0 <= k < |ts| - |r| ==> ts[k] == "\n"
  {
    if |ts| > 0 && ts[0] == "\n" then DropLeadingBreaks(ts[1..]) else ts
  }

  /** Leading separators of a concatenation come from the front list until it has a word. */
  lemma {:induction false} DropConcat(a: seq<string>, b: seq<string>)
    ensures DropLeadingBreaks(a + b) ==
      if DropLeadingBreaks(a) == [] then DropLeadingBreaks(b) else DropLeadingBreaks(a) + b
    decreases |a|
  {
    if |a| > 0 {
      assert (a + b)[0] == a[0] && (a + b)[1..] == a[1..] + b;
      if a[0] == "\n" {
        DropConcat(a[1..], b);
      }
    } else {
      assert a + b == b;
    }
  }

  /**
    The wrapping tokenizer's layout: every line's words with one "\n" between
    consecutive lines, except that separators before the first word are not
    pushed.
  */
  lemma {:induction false} TokensAreJoinedLines(lines: seq<string>)
    requires forall k :: 0 <= k < |lines| ==> '\n' !in lines[k] && '\r' !in lines[k]
    ensures TokensOfLines(lines) == DropLeadingBreaks(JoinedLines(lines))
    decreases |lines|
  {
    if |lines| == 0 {
      assert TokensOfLines(lines) == [] && JoinedLines(lines) == [];
    } else {
      var init, line := lines[..|lines| - 1], lines[|lines| - 1];
      var ws := Words(line);
      WordsAreNotBreaks(line);
      TokensOfLinesStep(lines);
      assert forall k :: 0 <= k < |init| ==> init[k] == lines[k];
      TokensAreJoinedLines(init);
      if |lines| == 1 {
        assert TokensOfLines(init) == [] && JoinedLines(lines) == ws;
        assert DropLeadingBreaks(ws) == ws by {
          assert ws == [] || ws[0] != "\n";
        }
      } else {
        assert JoinedLines(lines) == JoinedLines(init) + ["\n"] + ws;
        SeparatorStep(TokensOfLines(init), JoinedLines(init), ws);
      }
    }
  }

  /**
    The inductive step of `TokensAreJoinedLines`: pushing "\n" only once a
    token exists, then a line's words, is dropping the leading separators of
    the layout extended by "\n" and the words.
  */
  lemma SeparatorStep(prior: seq<string>, joined: seq<string>, ws: seq<string>)
    requires prior == DropLeadingBreaks(joined)
    requires ws == [] || ws[0] != "\n"
    ensures (if prior != [] then prior + ["\n"] else prior) + ws == DropLeadingBreaks(joined + ["\n"] + ws)
  {
    var sep: seq<string> := ["\n"];
    var front := joined + sep;
    DropConcat(front, ws);
    DropConcat(joined, sep);
    if prior != [] {
      assert DropLeadingBreaks(front) == prior + sep;
    } else {
      assert DropLeadingBreaks(sep) == DropLeadingBreaks(sep[1..]) && sep[1..] == [];
      assert DropLeadingBreaks(front) == [];
      assert DropLeadingBreaks(ws) == ws;
    }
  }

  /**
    With `wrap_line`, `Write` tokenizes exactly as the reference layout of the
    text's lines, and its words spell the text without blanks, tabs and line
    breaks.
  */
  lemma TokenizeWrapped(str: string)
    ensures Tokenize(str, true) == DropLeadingBreaks(JoinedLines(Common.SplitBy(str, {'\n', '\r'})))
    ensures Letters(Tokenize(str, true)) == Common.Without(str, {'\n', '\r', ' ', '\t'})
  {
    var breaks, blanks := {'\n', '\r'}, {' ', '\t'};
    var lines := Common.SplitBy(str, breaks);
    var ts := TokensOfLines(lines);
    assert Tokenize(str, true) == ts;
    TokensAreJoinedLines(lines);
    assert Letters(ts) == Common.Without(Common.Without(str, breaks), blanks) by {
      TokensSpellLines(lines);
      Common.FlattenSplit(str, breaks);
    }
    Common.WithoutTwice(str, breaks, blanks);
    assert breaks + blanks == {'\n', '\r', ' ', '\t'};
  }

  /** `Write(str, wrap_line)`: nothing at all for empty text, otherwise its tokens one after the other. */
  function Write(p: Printer, str: string, wrapLine: bool): (e: Emitted)
    ensures SameLayout(e.printer, p)
    ensures str == "" ==> e == Emitted(p, "")
  {
    if str == "" then Emitted(p, "") else WriteTokens(p, Tokenize(str, wrapLine))
  }

  /** After a wrap token the printer's line length is the column the output is at. */
  lemma WriteTokenTracksColumn(p: Printer, token: string)
    requires IsWrapToken(token)
    ensures WriteToken(p, token).printer.lineLen == ColumnAfter(p.lineLen, WriteToken(p, token).out)
  {
    var e := WriteToken(p, token);
    if token == "\n" {
      assert ColumnAfter(p.lineLen, "\n") == ColumnAfter(0, "");
    } else {
      var s := StartLine(p).out;
      assert '\n' !in s by {
        forall k | 0 <= k < |s| ensures s[k] != '\n' { }
      }
      if p.lineLen > 0 && p.lineLen + |token| < p.maxLineLen {
        ColumnAfterNoBreak(p.lineLen, " " + token);
      } else if p.lineLen > 0 {
        ColumnAfterConcat(p.lineLen, "\n", s + token);
        assert "\n" + s + token == "\n" + (s + token);
        assert ColumnAfter(p.lineLen, "\n") == ColumnAfter(0, "");
        assert '\n' !in s + token;
        ColumnAfterNoBreak(0, s + token);
      } else {
        assert '\n' !in s + token;
        ColumnAfterNoBreak(0, s + token);
      }
    }
  }

  /** Across wrap tokens, the printer's line length stays the column the output is at. */
  lemma {:induction false} WriteTokensTracksColumn(p: Printer, tokens: seq<string>)
    requires forall k :: 0 <= k < |tokens| ==> IsWrapToken(tokens[k])
    ensures WriteTokens(p, tokens).printer.lineLen == ColumnAfter(p.lineLen, WriteTokens(p, tokens).out)
    decreases |tokens|
  {
    if |tokens| > 0 {
      var first := WriteToken(p, tokens[0]);
      WriteTokenTracksColumn(p, tokens[0]);
      WriteTokensTracksColumn(first.printer, tokens[1..]);
      ColumnAfterConcat(p.lineLen, first.out, WriteTokens(first.printer, tokens[1..]).out);
    }
  }

  /**
    With `wrap_line`, `line_len_` always equals the column of the output: the
    printer's view of the current line matches what it wrote.
  */
  lemma WriteTracksColumn(p: Printer, str: string)
    ensures Write(p, str, true).printer.lineLen == ColumnAfter(p.lineLen, Write(p, str, true).out)
  {
    if str != "" {
      WriteTokensTracksColumn(p, Tokenize(str, true));
    }
  }

  // ---------------------------------------------------------------------------
  // Usage flags.

  /** `HelpMode`: which usage report the command line asked for. */
  datatype HelpMode = None | Important | Short | Full | Package | Match | Version | OnlyCheckArgs

  /** `HelpFormat`: the output format of the help. */
  datatype HelpFormat = HumanReadable

  /** The mutex-guarded help globals: mode, format and match substring (empty until set). */
  datatype HelpState = HelpState(mode: HelpMode, format: HelpFormat, matchSubstr: string)

  /** The globals before any usage flag is seen. */
  const InitialHelpState := HelpState(None, HumanReadable, "")

  /** The result of `DeduceUsageFlags`: whether the flag was a usage flag, and the globals afterwards. */
  datatype Deduced = Deduced(handled: bool, state: HelpState)

  /** `DeduceUsageFlags(name, value)`: recognises a usage flag and records the mode it asks for. */
  function DeduceUsageFlags(name: string, value: string, st: HelpState): (r: Deduced)
    ensures !r.handled ==> r.state == st
    ensures r.state.format == st.format
    ensures r.state.mode != Match ==> r.state.matchSubstr == st.matchSubstr
    ensures r.handled ==> r.state.mode != None
  {
    if "help" <= name then
      var rest := name[4..];
      if rest == "" then
        if value == "" then Deduced(true, st.(mode := Important))
        else Deduced(true, st.(mode := Match, matchSubstr := value))
      else if rest == "match" then Deduced(true, st.(mode := Match, matchSubstr := value))
      else if rest == "on" then Deduced(true, st.(mode := Match, matchSubstr := "/" + value + "."))
      else if rest == "full" then Deduced(true, st.(mode := Full))
      else if rest == "short" then Deduced(true, st.(mode := Short))
      else if rest == "package" then Deduced(true, st.(mode := Package))
      else Deduced(false, st)
    else if name == "version" then Deduced(true, st.(mode := Version))
    else if name == "only_check_args" then Deduced(true, st.(mode := OnlyCheckArgs))
    else Deduced(false, st)
  }

  /** The names of the usage flags. */
  const UsageFlagNames: seq<string> :=
    ["help", "helpmatch", "helpon", "helpfull", "helpshort", "helppackage", "version", "only_check_args"]

  /** What follows "help" in the first six usage flag names. */
  const HelpSuffixes: seq<string> := ["", "match", "on", "full", "short", "package"]

  /** `--version` and `--only_check_args` do not start with "help". */
  lemma HelpPrefixOnly(name: string)
    ensures !("help" <= "version") && !("help" <= "only_check_args")
    ensures "help" <= name ==> name != "version" && name != "only_check_args"
  {
    assert "version"[0] != 'h' && "only_check_args"[0] != 'h';
  }

  /** Texts with a common prefix are equal exactly when what follows it is. */
  lemma PrefixCancel(p: string, a: string, b: string)
    ensures p + a == p + b <==> a == b
  {
    if p + a == p + b {
      assert a == (p + a)[|p|..];
      assert b == (p + b)[|p|..];
    }
  }

  /** Exactly the eight usage flag names are recognised. */
  lemma DeduceRecognisesUsageFlags(name: string, value: string, st: HelpState)
    ensures DeduceUsageFlags(name, value, st).handled <==> name in UsageFlagNames
  {
    HelpPrefixOnly(name);
    if "help" <= name {
      var rest := name[4..];
      assert name == "help" + rest;
      forall k | 0 <= k < 6
        ensures name == UsageFlagNames[k] <==> rest == HelpSuffixes[k]
      {
        assert UsageFlagNames[k] == "help" + HelpSuffixes[k];
        PrefixCancel("help", rest, HelpSuffixes[k]);
      }
      assert DeduceUsageFlags(name, value, st).handled <==> rest in HelpSuffixes;
      assert name in UsageFlagNames <==> exists k :: 0 <= k < 6 && name == UsageFlagNames[k];
    } else {
      forall k | 0 <= k < 6
        ensures name != UsageFlagNames[k]
      {
        assert "help" <= UsageFlagNames[k];
      }
    }
  }

  /**
    The mode each usage flag selects: bare `--help` the important flags, or a
    match on its value when it has one; `--helpmatch=v` a match on v;
    `--helpon=v` a match on "/v."; the others their own modes.
  */
  lemma DeduceModes(value: string, st: HelpState)
    ensures DeduceUsageFlags("help", "", st).state == st.(mode := Important)
    ensures value != "" ==> DeduceUsageFlags("help", value, st).state == st.(mode := Match, matchSubstr := value)
    ensures DeduceUsageFlags("helpmatch", value, st).state == st.(mode := Match, matchSubstr := value)
    ensures DeduceUsageFlags("helpon", value, st).state == st.(mode := Match, matchSubstr := "/" + value + ".")
    ensures DeduceUsageFlags("helpfull", value, st).state == st.(mode := Full)
    ensures DeduceUsageFlags("helpshort", value, st).state == st.(mode := Short)
    ensures DeduceUsageFlags("helppackage", value, st).state == st.(mode := Package)
    ensures DeduceUsageFlags("version", value, st).state == st.(mode := Version)
    ensures DeduceUsageFlags("only_check_args", value, st).state == st.(mode := OnlyCheckArgs)
  {
    assert "helpmatch"[4..] == "match";
    assert "helpon"[4..] == "on";
    assert "helpfull"[4..] == "full";
    assert "helpshort"[4..] == "short";
    assert "helppackage"[4..] == "package";
    assert "help"[4..] == "";
    HelpPrefixOnly("version");
  }

  /** Which flags a help report lists. */
  datatype FlagFilter =
    | HelpFlags        // `contains_help_flags` of the usage config
    | HelpshortFlags   // `contains_helpshort_flags`
    | HelppackageFlags // `contains_helppackage_flags`
    | AllFlags
    | Matching(substr: string) // name, file name or help text contains `substr`

  /** What `HandleUsageFlags` writes. */
  datatype Report = NoReport | FlagsHelp(filter: FlagFilter, format: HelpFormat) | VersionString

  /** The return code of `HandleUsageFlags` and the report it writes. */
  datatype Handled = Handled(code: int, report: Report)

  /**
    `HandleUsageFlags`: writes the report the mode asks for. `hasVersionString`
    says whether the usage config provides a version string.
  */
  function HandleUsageFlags(st: HelpState, hasVersionString: bool): (r: Handled)
    ensures r.code == -1 <==> st.mode == None
    ensures r.code == 0 <==> st.mode == Version || st.mode == OnlyCheckArgs
    ensures r.code == 1 <==> r.report.FlagsHelp?
    ensures r.code in {-1, 0, 1}
    ensures r.report.VersionString? <==> st.mode == Version && hasVersionString
    ensures st.mode == Match && st.matchSubstr != "" ==> r.report == FlagsHelp(Matching(st.matchSubstr), HumanReadable)
  {
    match st.mode
    case None => Handled(-1, NoReport)
    case Important => Handled(1, FlagsHelp(HelpFlags, st.format))
    case Short => Handled(1, FlagsHelp(HelpshortFlags, st.format))
    case Full => Handled(1, FlagsHelp(AllFlags, st.format))
    case Package => Handled(1, FlagsHelp(HelppackageFlags, st.format))
    case Match =>
      if st.matchSubstr == "" then Handled(1, FlagsHelp(AllFlags, st.format))
      else Handled(1, FlagsHelp(Matching(st.matchSubstr), HumanReadable))
    case Version => Handled(0, if hasVersionString then VersionString else NoReport)
    case OnlyCheckArgs => Handled(0, NoReport)
  }

  /**
    A recognised usage flag makes `HandleUsageFlags` return 0 for `--version`
    and `--only_check_args` and 1 for every help flag; with no usage flag it
    returns -1.
  */
  lemma DeduceThenHandle(name: string, value: string, hasVersionString: bool)
    ensures var d := DeduceUsageFlags(name, value, InitialHelpState);
      HandleUsageFlags(d.state, hasVersionString).code ==
        if !d.handled then -1
        else if name == "version" || name == "only_check_args" then 0
        else 1
  {
    HelpPrefixOnly(name);
  }
}
