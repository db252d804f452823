/**
  Flag value marshalling of turbo/flags/marshalling.cc: `TurboParseFlag` for
  bool, the narrow integer types, strings, string vectors and `LogSeverity`,
  the integer base selection, and the matching `Unparse` functions.

  `safe_strtoi_base` is not part of this model: every integer parser takes it
  as a parameter `strtoi`, which receives the text and the base and returns
  whether it succeeded and the value it stored.
*/
module Marshalling {
  import opened Common

  /** The result of a `TurboParseFlag` call: its return value and the (possibly rewritten) destination. */
  datatype Outcome<T> = Outcome(ok: bool, dst: T)

  // ---------------------------------------------------------------------------
  // ASCII helpers.

  /** `ascii_isspace`: ' ', '\t', '\n', '\v', '\f' and '\r'. */
  predicate IsAsciiSpace(c: char)
  {
    c == ' ' || '\t' <= c <= '\r'
  }

  /** Every character of `s` is ASCII whitespace. */
  predicate AllSpace(s: string)
  {
    forall k :: 0 <= k < |s| ==> IsAsciiSpace(s[k])
  }

  /** Leading whitespace of `s[1..]` plus a whitespace `s[0]` is leading whitespace of `s`. */
  lemma StripLeadingStep(s: string, r: string)
    requires |s| > 0 && IsAsciiSpace(s[0])
    requires |r| <= |s| - 1 && r == s[1..][|s| - 1 - |r|..]
    requires AllSpace(s[1..][..|s| - 1 - |r|])
    ensures r == s[|s| - |r|..] && AllSpace(s[..|s| - |r|])
  {
    forall k | 0 < k < |s| - |r|
      ensures IsAsciiSpace(s[k])
    {
      assert s[k] == s[1..][..|s| - 1 - |r|][k - 1];
    }
  }

  /** `StripLeadingAsciiWhitespace`: `s` without its leading whitespace. */
  function StripLeading(s: string): (r: string)
    ensures |r| <= |s| && r == s[|s| - |r|..]
    ensures AllSpace(s[..|s| - |r|])
    ensures r != [] ==> !IsAsciiSpace(r[0])
  {
    if |s| > 0 && IsAsciiSpace(s[0]) then
      var r := StripLeading(s[1..]);
      StripLeadingStep(s, r);
      r
    else s
  }

  /** `StripTrailingAsciiWhitespace`: `s` without its trailing whitespace. */
  function StripTrailing(s: string): (r: string)
    ensures |r| <= |s| && r == s[..|r|]
    ensures AllSpace(s[|r|..])
    ensures r != [] ==> !IsAsciiSpace(r[|r| - 1])
  {
    if |s| > 0 && IsAsciiSpace(s[|s| - 1]) then
      var r := StripTrailing(s[..|s| - 1]);
      assert AllSpace(s[|r|..]) by {
        forall k | |r| <= k < |s| - 1
          ensures IsAsciiSpace(s[k])
        {
          assert s[k] == s[..|s| - 1][|r|..][k - |r|];
        }
      }
      r
    else s
  }

  /** `StripAsciiWhitespace`: `s` without leading and trailing whitespace. */
  function Strip(s: string): (r: string)
    ensures Trimmed(r)
    ensures |r| <= |s|
  {
    StripTrailing(StripLeading(s))
  }

  /** Text that neither starts nor ends with whitespace. */
  predicate Trimmed(m: string)
  {
    m == [] || (!IsAsciiSpace(m[0]) && !IsAsciiSpace(m[|m| - 1]))
  }

  /** Leading whitespace in front of text that does not start with whitespace is removed, and only that. */
  lemma {:induction false} StripLeadingSpaces(w: string, m: string)
    requires AllSpace(w)
    requires m == [] || !IsAsciiSpace(m[0])
    ensures StripLeading(w + m) == m
    decreases |w|
  {
    if |w| > 0 {
      assert (w + m)[1..] == w[1..] + m;
      StripLeadingSpaces(w[1..], m);
    } else {
      assert w + m == m;
    }
  }

  /** Trailing whitespace after text that does not end with whitespace is removed, and only that. */
  lemma {:induction false} StripTrailingSpaces(m: string, w: string)
    requires AllSpace(w)
    requires m == [] || !IsAsciiSpace(m[|m| - 1])
    ensures StripTrailing(m + w) == m
    decreases |w|
  {
    if |w| > 0 {
      assert (m + w)[..|m + w| - 1] == m + w[..|w| - 1];
      StripTrailingSpaces(m, w[..|w| - 1]);
    } else {
      assert m + w == m;
    }
  }

  /** Stripping removes exactly the surrounding whitespace: `Strip(w1 + m + w2) == m`. */
  lemma StripSurrounded(w1: string, m: string, w2: string)
    requires AllSpace(w1) && AllSpace(w2) && Trimmed(m)
    ensures Strip(w1 + m + w2) == m
  {
    if m == [] {
      assert w1 + m + w2 == w1 + w2;
      StripLeadingSpaces(w1 + w2, []);
      assert w1 + w2 + [] == w1 + w2;
    } else {
      assert w1 + m + w2 == w1 + (m + w2);
      StripLeadingSpaces(w1, m + w2);
      StripTrailingSpaces(m, w2);
    }
  }

  /** The stripped text is trimmed, so stripping twice changes nothing. */
  lemma StripIdempotent(s: string)
    ensures Trimmed(Strip(s))
    ensures Strip(Strip(s)) == Strip(s)
  {
    var m := Strip(s);
    var l := StripLeading(s);
    if m != [] {
      assert m == l[..|m|];
      assert m[0] == l[0];
    }
    StripSurrounded([], m, []);
    assert [] + m + [] == m;
  }

  /** `ascii_tolower`. */
  function ToLower(c: char): (r: char)
    ensures 'A' <= c <= 'Z' ==> r as int == c as int + 32
    ensures !('A' <= c <= 'Z') ==> r == c
  {
    if 'A' <= c <= 'Z' then (c as int + 32) as char else c
  }

  /** `EqualsIgnoreCase`: same length and the same characters up to ASCII case. */
  predicate EqualsIgnoreCase(a: string, b: string)
  {
    |a| == |b| && forall k :: 0 <= k < |a| ==> ToLower(a[k]) == ToLower(b[k])
  }

  // ---------------------------------------------------------------------------
  // bool.

  /** The spellings accepted for `true`, in the order they are tried. */
  const TrueWords: seq<string> := ["1", "t", "true", "y", "yes"]

  /** The spellings accepted for `false`, in the order they are tried. */
  const FalseWords: seq<string> := ["0", "f", "false", "n", "no"]

  /** `t` equals one of `words` up to case. */
  predicate MatchesAnyWord(t: string, words: seq<string>)
  {
    exists i :: 0 <= i < |words| && EqualsIgnoreCase(t, words[i])
  }

  /** The loop of the bool parser from index `i` on: true word `i`, then false word `i`, then the next index. */
  function MatchBoolWords(t: string, i: nat, dst: bool): (r: Outcome<bool>)
    requires i <= |TrueWords| == |FalseWords|
    ensures r.ok <==> exists k :: i <= k < |TrueWords| && (EqualsIgnoreCase(t, TrueWords[k]) || EqualsIgnoreCase(t, FalseWords[k]))
    ensures !r.ok ==> r.dst == dst
    ensures r.ok && r.dst ==> exists k :: i <= k < |TrueWords| && EqualsIgnoreCase(t, TrueWords[k])
    ensures r.ok && !r.dst ==> exists k :: i <= k < |FalseWords| && EqualsIgnoreCase(t, FalseWords[k])
    decreases |TrueWords| - i
  {
    if i == |TrueWords| then Outcome(false, dst)
    else if EqualsIgnoreCase(t, TrueWords[i]) then Outcome(true, true)
    else if EqualsIgnoreCase(t, FalseWords[i]) then Outcome(true, false)
    else MatchBoolWords(t, i + 1, dst)
  }

  /** `TurboParseFlag(text, bool*)`: a true or false spelling, up to case and surrounding whitespace. */
  function ParseBool(text: string, dst: bool): (r: Outcome<bool>)
    ensures r.ok <==> MatchesAnyWord(Strip(text), TrueWords) || MatchesAnyWord(Strip(text), FalseWords)
    ensures !r.ok ==> r.dst == dst
  {
    MatchBoolWords(Strip(text), 0, dst)
  }

  /** Two words whose first letters differ up to case are never both equal to a text up to case. */
  lemma FirstLetterSeparates(t: string, a: string, b: string)
    requires |a| > 0 && |b| > 0 && ToLower(a[0]) != ToLower(b[0])
    ensures EqualsIgnoreCase(t, a) ==> !EqualsIgnoreCase(t, b)
  {
    if EqualsIgnoreCase(t, a) {
      assert ToLower(t[0]) == ToLower(a[0]);
    }
  }

  /** No text is both a true spelling and a false spelling, whatever its case. */
  lemma TrueAndFalseWordsDisjoint(t: string)
    ensures MatchesAnyWord(t, TrueWords) ==> !MatchesAnyWord(t, FalseWords)
  {
    forall i, j | 0 <= i < |TrueWords| && 0 <= j < |FalseWords|
      ensures EqualsIgnoreCase(t, TrueWords[i]) ==> !EqualsIgnoreCase(t, FalseWords[j])
    {
      FirstLetterSeparates(t, TrueWords[i], FalseWords[j]);
    }
  }

  /**
    The bool parser, stated without its loop: a true spelling gives true, a
    false spelling gives false, anything else fails and leaves `dst` alone.
  */
  lemma ParseBoolMeaning(text: string, dst: bool)
    ensures MatchesAnyWord(Strip(text), TrueWords) ==> ParseBool(text, dst) == Outcome(true, true)
    ensures MatchesAnyWord(Strip(text), FalseWords) ==> ParseBool(text, dst) == Outcome(true, false)
    ensures !MatchesAnyWord(Strip(text), TrueWords) && !MatchesAnyWord(Strip(text), FalseWords) ==>
      ParseBool(text, dst) == Outcome(false, dst)
  {
    TrueAndFalseWordsDisjoint(Strip(text));
  }

  /** `Unparse(bool)`. */
  function UnparseBool(v: bool): (r: string)
    ensures v ==> r == TrueWords[2]
    ensures !v ==> r == FalseWords[2]
  {
    if v then "true" else "false"
  }

  /** Every text equals itself up to case. */
  lemma EqualsIgnoreCaseReflexive(t: string)
    ensures EqualsIgnoreCase(t, t)
  {
  }

  /** Appending nothing twice changes nothing. */
  lemma AppendNothing<T>(t: seq<T>)
    ensures t + [] + [] == t
  {
  }

  /** Nothing around a text is nothing at all. */
  lemma NothingAround<T>(t: seq<T>)
    ensures [] + t + [] == t
  {
  }

  /** The canonical spellings carry no surrounding whitespace. */
  lemma CanonicalWordsTrimmed()
    ensures Trimmed(TrueWords[2]) && Trimmed(FalseWords[2])
  {
  }

  /** A trimmed spelling parses as the bool it spells. */
  lemma TrimmedSpellingParses(t: string, dst: bool)
    requires Trimmed(t)
    ensures MatchesAnyWord(t, TrueWords) ==> ParseBool(t, dst) == Outcome(true, true)
    ensures MatchesAnyWord(t, FalseWords) ==> ParseBool(t, dst) == Outcome(true, false)
  {
    StripSurrounded([], t, []);
    NothingAround(t);
    ParseBoolMeaning(t, dst);
  }

  /** Unparsing a bool and parsing the text back gives the same bool. */
  lemma BoolRoundTrip(v: bool, dst: bool)
    ensures ParseBool(UnparseBool(v), dst) == Outcome(true, v)
  {
    var t := UnparseBool(v);
    CanonicalWordsTrimmed();
    EqualsIgnoreCaseReflexive(t);
    TrimmedSpellingParses(t, dst);
    if v {
      assert EqualsIgnoreCase(t, TrueWords[2]);
    } else {
      assert EqualsIgnoreCase(t, FalseWords[2]);
    }
  }

  /** The whitespace around " YES\n" is stripped. */
  lemma YesStripped(text: string)
    requires text == " YES\n"
    ensures Strip(text) == text[1..4]
  {
    var w1, m, w2 := text[..1], text[1..4], text[4..];
    assert text == w1 + m + w2;
    StripSurrounded(w1, m, w2);
  }

  /** "YES" is a true spelling up to case. */
  lemma YesIsTrueWord(m: string)
    requires m == "YES"
    ensures MatchesAnyWord(m, TrueWords)
  {
    assert EqualsIgnoreCase(m, TrueWords[4]);
  }

  /** Case and surrounding whitespace do not matter: " YES\n" parses as true. */
  lemma BoolSpellingExample(text: string, dst: bool)
    requires text == " YES\n"
    ensures ParseBool(text, dst) == Outcome(true, true)
  {
    YesStripped(text);
    YesIsTrueWord(text[1..4]);
    ParseBoolMeaning(text, dst);
  }

  // ---------------------------------------------------------------------------
  // Integers.

  /** `NumericBase`: 16 after a "0x" or "0X" prefix, 10 otherwise. */
  function NumericBase(text: string): (base: int)
    ensures base == 10 || base == 16
    ensures base == 16 <==> |text| >= 2 && text[0] == '0' && (text[1] == 'x' || text[1] == 'X')
  {
    if |text| >= 2 && text[0] == '0' && (text[1] == 'x' || text[1] == 'X') then 16 else 10
  }

  /** A leading '0' alone never selects octal: "010" is read in base 10. */
  lemma LeadingZeroIsDecimal(text: string)
    requires |text| >= 2 && text[0] == '0' && '0' <= text[1] <= '9'
    ensures NumericBase(text) == 10
  {
  }

  /** `safe_strtoi_base` for a type `T`: parses the text in the given base. */
  type Strtoi<T> = (string, int) -> Outcome<T>

  /** `ParseFlagImpl`: the stripped text, handed to `safe_strtoi_base` with the base its prefix selects. */
  function ParseFlagImpl<T>(text: string, strtoi: Strtoi<T>): (r: Outcome<T>)
    ensures var t := Strip(text); r == strtoi(t, NumericBase(t))
  {
    var t := Strip(text);
    strtoi(t, NumericBase(t))
  }

  /** Whitespace followed by whitespace is whitespace. */
  lemma AllSpaceConcat(a: string, b: string)
    requires AllSpace(a) && AllSpace(b)
    ensures AllSpace(a + b)
  {
    forall k | 0 <= k < |a + b|
      ensures IsAsciiSpace((a + b)[k])
    {
      if k >= |a| {
        assert (a + b)[k] == b[k - |a|];
      }
    }
  }

  /** A text is its leading whitespace followed by the rest. */
  lemma LeadingSplit(text: string) returns (lead: string)
    ensures text == lead + StripLeading(text) && AllSpace(lead)
  {
    var l := StripLeading(text);
    lead := text[..|text| - |l|];
    TakeDrop(text, |text| - |l|);
  }

  /** A text is its content followed by its trailing whitespace. */
  lemma TrailingSplit(text: string) returns (trail: string)
    ensures text == StripTrailing(text) + trail && AllSpace(trail)
  {
    var m := StripTrailing(text);
    trail := text[|m|..];
    TakeDrop(text, |m|);
  }

  /** A text is its leading whitespace, its stripped form and its trailing whitespace. */
  lemma StripSplitsText(text: string) returns (lead: string, trail: string)
    ensures text == lead + Strip(text) + trail
    ensures AllSpace(lead) && AllSpace(trail)
  {
    lead := LeadingSplit(text);
    trail := TrailingSplit(StripLeading(text));
    Assoc(lead, Strip(text), trail);
  }

  /** Concatenation is associative. */
  lemma Assoc<T>(a: seq<T>, b: seq<T>, c: seq<T>)
    ensures a + (b + c) == a + b + c
  {
  }

  /** A sequence is its prefix followed by the rest. */
  lemma TakeDrop<T>(s: seq<T>, n: nat)
    requires n <= |s|
    ensures s[..n] + s[n..] == s
  {
  }

  /** Regrouping a concatenation of five pieces. */
  lemma Regroup<T>(a: seq<T>, b: seq<T>, c: seq<T>, d: seq<T>, e: seq<T>)
    ensures a + (b + c + d) + e == (a + b) + c + (d + e)
  {
    assert b + c + d == b + (c + d);
    assert a + (b + (c + d)) == (a + b) + (c + d);
    assert (a + b) + (c + d) + e == (a + b) + c + (d + e);
  }

  /** Whitespace around a text is invisible to stripping: `Strip(w1 + text + w2) == Strip(text)`. */
  lemma StripIgnoresPadding(w1: string, text: string, w2: string)
    requires AllSpace(w1) && AllSpace(w2)
    ensures Strip(w1 + text + w2) == Strip(text)
  {
    StripIdempotent(text);
    var m := Strip(text);
    var lead, trail := StripSplitsText(text);
    Regroup(w1, lead, m, trail, w2);
    AllSpaceConcat(w1, lead);
    AllSpaceConcat(trail, w2);
    StripSurrounded(w1 + lead, m, trail + w2);
  }

  /** Surrounding whitespace is invisible to the integer parsers. */
  lemma ParseFlagImplIgnoresSpace<T>(w1: string, text: string, w2: string, strtoi: Strtoi<T>)
    requires AllSpace(w1) && AllSpace(w2)
    ensures ParseFlagImpl(w1 + text + w2, strtoi) == ParseFlagImpl(text, strtoi)
  {
    StripIgnoresPadding(w1, text, w2);
  }

  /** `static_cast<short>` of an `int`: two's-complement truncation to 16 bits. */
  function ToShort(v: int32): (r: int16)
    ensures (r - v) % 0x1_0000 == 0
  {
    (v + 0x8000) % 0x1_0000 - 0x8000
  }

  /** `static_cast<unsigned short>` of an `unsigned int`: truncation to 16 bits. */
  function ToUShort(v: u32): (r: u16)
    ensures (v - r) % 0x1_0000 == 0
  {
    v % 0x1_0000
  }

  /** The narrowing casts give back their argument exactly when it fits the narrow type. */
  lemma NarrowingIsExactInRange(v: int32, u: u32)
    ensures ToShort(v) == v <==> -0x8000 <= v < 0x8000
    ensures ToUShort(u) == u <==> u < 0x1_0000
  {
  }

  /** `TurboParseFlag(text, int*)`: `safe_strtoi_base` on the stripped text; the integer parser passed in decides the outcome and `*dst`. */
  function ParseInt(text: string, dst: int32, strtoi: Strtoi<int32>): (r: Outcome<int32>)
    ensures r == ParseFlagImpl(text, strtoi)
  {
    ParseFlagImpl(text, strtoi)
  }

  /**
    `TurboParseFlag(text, short*)`: parses an `int` and fails, leaving `*dst`
    unchanged, when parsing fails or the value does not fit a `short`.
  */
  function ParseShort(text: string, dst: int16, strtoi: Strtoi<int32>): (r: Outcome<int16>)
    ensures var p := ParseFlagImpl(text, strtoi);
      r.ok <==> p.ok && -0x8000 <= p.dst < 0x8000
    ensures r.ok ==> r.dst == ParseFlagImpl(text, strtoi).dst
    ensures !r.ok ==> r.dst == dst
  {
    var p := ParseFlagImpl(text, strtoi);
    if !p.ok then Outcome(false, dst)
    else if ToShort(p.dst) != p.dst then Outcome(false, dst)
    else Outcome(true, ToShort(p.dst))
  }

  /**
    `TurboParseFlag(text, unsigned short*)`: parses an `unsigned int` and fails,
    leaving `*dst` unchanged, when parsing fails or the value exceeds 65535.
  */
  function ParseUShort(text: string, dst: u16, strtoi: Strtoi<u32>): (r: Outcome<u16>)
    ensures var p := ParseFlagImpl(text, strtoi);
      r.ok <==> p.ok && p.dst < 0x1_0000
    ensures r.ok ==> r.dst == ParseFlagImpl(text, strtoi).dst
    ensures !r.ok ==> r.dst == dst
  {
    var p := ParseFlagImpl(text, strtoi);
    if !p.ok then Outcome(false, dst)
    else if ToUShort(p.dst) != p.dst then Outcome(false, dst)
    else Outcome(true, ToUShort(p.dst))
  }

  // ---------------------------------------------------------------------------
  // Strings and string vectors.

  /** `TurboParseFlag(text, std::string*)`: always succeeds and stores the text verbatim. */
  function ParseString(text: string, dst: string): (r: Outcome<string>)
    ensures r.ok && r.dst == text
  {
    Outcome(true, text)
  }

  /** `TurboUnparseFlag(string_view)`: the value verbatim. */
  function UnparseString(v: string): (r: string)
    ensures |r| == |v| && forall k :: 0 <= k < |v| ==> r[k] == v[k]
  {
    v
  }

  /** String unparse and parse are mutually inverse. */
  lemma StringRoundTrip(v: string, text: string, dst: string)
    ensures ParseString(UnparseString(v), dst) == Outcome(true, v)
    ensures UnparseString(ParseString(text, dst).dst) == text
  {
  }

  /** The number of occurrences of `c` in `s`. */
  function CountChar(s: string, c: char): nat
  {
    if |s| == 0 then 0 else (if s[0] == c then 1 else 0) + CountChar(s[1..], c)
  }

  /** `StrSplit(text, ',', AllowEmpty())`: the pieces between commas, empty ones included. */
  function Split(s: string): (parts: seq<string>)
    ensures |parts| == CountChar(s, ',') + 1
    ensures forall k :: 0 <= k < |parts| ==> ',' !in parts[k]
  {
    SplitCount(s);
    SplitBy(s, {','})
  }

  /** Splitting at commas gives one more piece than there are commas. */
  lemma {:induction false} SplitCount(s: string)
    ensures |SplitBy(s, {','})| == CountChar(s, ',') + 1
    decreases |s|
  {
    if |s| > 0 {
      SplitCount(s[1..]);
    }
  }

  /** `StrJoin(v, ",")`: the elements with a comma between neighbours. */
  function Join(v: seq<string>): string
  {
    if |v| == 0 then ""
    else if |v| == 1 then v[0]
    else v[0] + "," + Join(v[1..])
  }

  /** Splitting and joining again gives back the text. */
  lemma {:induction false} JoinSplit(s: string)
    ensures Join(Split(s)) == s
    decreases |s|
  {
    if |s| > 0 {
      var rest := Split(s[1..]);
      JoinSplit(s[1..]);
      if s[0] == ',' {
        assert ([""] + rest)[1..] == rest;
        assert s == [','] + s[1..];
      } else {
        var parts := [[s[0]] + rest[0]] + rest[1..];
        if |rest| == 1 {
          assert s == [s[0]] + rest[0];
        } else {
          assert parts[1..] == rest[1..];
          assert Join(rest) == rest[0] + "," + Join(rest[1..]);
          assert s == [s[0]] + s[1..];
        }
      }
    }
  }

  /** Joining elements that contain no comma and splitting again gives back the elements. */
  lemma {:induction false} SplitJoin(v: seq<string>)
    requires |v| >= 1
    requires forall k :: 0 <= k < |v| ==> ',' !in v[k]
    ensures Split(Join(v)) == v
    decreases |v|, |v[0]|
  {
    if |v| == 1 {
      SplitNoComma(v[0]);
    } else if |v[0]| == 0 {
      SplitJoin(v[1..]);
      assert Join(v) == [','] + Join(v[1..]);
      assert [','] + Join(v[1..]) != [];
      assert (Join(v))[1..] == Join(v[1..]);
      assert v == [""] + v[1..];
    } else {
      var w := [v[0][1..]] + v[1..];
      assert w[1..] == v[1..];
      SplitJoin(w);
      assert Join(v) == [v[0][0]] + Join(w);
      assert Join(v)[1..] == Join(w);
      assert v[0] == [v[0][0]] + v[0][1..];
      assert v == [[v[0][0]] + w[0]] + w[1..];
    }
  }

  /** A text without commas splits into itself alone. */
  lemma {:induction false} SplitNoComma(s: string)
    requires ',' !in s
    ensures Split(s) == [s]
    decreases |s|
  {
    if |s| > 0 {
      assert ',' !in s[1..] by {
        forall k | 0 <= k < |s[1..]| ensures s[1..][k] != ',' { assert s[1..][k] == s[k + 1]; }
      }
      SplitNoComma(s[1..]);
      assert s == [s[0]] + s[1..];
    }
  }

  /**
    `TurboParseFlag(text, std::vector<std::string>*)`: always succeeds; empty
    text gives the empty vector, anything else its comma-separated pieces.
  */
  function ParseStringVector(text: string, dst: seq<string>): (r: Outcome<seq<string>>)
    ensures r.ok
    ensures text == [] <==> r.dst == []
    ensures text != [] ==> |r.dst| == CountChar(text, ',') + 1
    ensures forall k :: 0 <= k < |r.dst| ==> ',' !in r.dst[k]
  {
    if text == [] then Outcome(true, []) else Outcome(true, Split(text))
  }

  /** `TurboUnparseFlag(const std::vector<std::string>&)`. */
  function UnparseStringVector(v: seq<string>): string
  {
    Join(v)
  }

  /** Parsing then unparsing gives back any text. */
  lemma StringVectorTextRoundTrip(text: string, dst: seq<string>)
    ensures UnparseStringVector(ParseStringVector(text, dst).dst) == text
  {
    if text != [] {
      JoinSplit(text);
    }
  }

  /**
    Unparsing then parsing gives back any vector whose elements contain no
    comma, except `[""]`, which unparses to the empty text and so comes back
    as the empty vector.
  */
  lemma StringVectorRoundTrip(v: seq<string>, dst: seq<string>)
    requires forall k :: 0 <= k < |v| ==> ',' !in v[k]
    ensures v != [""] ==> ParseStringVector(UnparseStringVector(v), dst).dst == v
    ensures v == [""] ==> ParseStringVector(UnparseStringVector(v), dst).dst == []
  {
    if |v| >= 1 && v != [""] {
      SplitJoin(v);
    }
  }

  // ---------------------------------------------------------------------------
  // LogSeverity.

  /** `turbo::LogSeverity`: an enumeration over `int`, which may hold any `int` value. */
  datatype LogSeverity = LogSeverity(level: int32)

  const Info := LogSeverity(0)
  const Warning := LogSeverity(1)
  const Error := LogSeverity(2)
  const Fatal := LogSeverity(3)

  /** The enumerator names the parser accepts, in the order it tries them, and their enumerators. */
  const SeverityNames: seq<string> := ["info", "warning", "error", "fatal"]
  const Severities: seq<LogSeverity> := [Info, Warning, Error, Fatal]

  /** The result of parsing a `LogSeverity`: success, the destination and the error text. */
  datatype SeverityOutcome = SeverityOutcome(ok: bool, dst: LogSeverity, err: string)

  const NoValueError := "no value provided"
  const NotASeverityError := "only integers and turbo::LogSeverity enumerators are accepted"

  /** One leading 'k' or 'K' dropped, as in `kInfo`. */
  function DropK(t: string): (r: string)
    ensures |t| > 0 && (t[0] == 'k' || t[0] == 'K') ==> r == t[1..]
    ensures !(|t| > 0 && (t[0] == 'k' || t[0] == 'K')) ==> r == t
  {
    if |t| > 0 && (t[0] == 'k' || t[0] == 'K') then t[1..] else t
  }

  /** The name comparisons of the parser, in order: the enumerator whose name `t` equals up to case. */
  function SeverityByName(t: string): (r: Option<LogSeverity>)
    ensures r.Some? ==> r.value in Severities
    ensures r.None? <==> !MatchesAnyWord(t, SeverityNames)
  {
    if EqualsIgnoreCase(t, "info") then
      assert EqualsIgnoreCase(t, SeverityNames[0]);
      Some(Info)
    else if EqualsIgnoreCase(t, "warning") then
      assert EqualsIgnoreCase(t, SeverityNames[1]);
      Some(Warning)
    else if EqualsIgnoreCase(t, "error") then
      assert EqualsIgnoreCase(t, SeverityNames[2]);
      Some(Error)
    else if EqualsIgnoreCase(t, "fatal") then
      assert EqualsIgnoreCase(t, SeverityNames[3]);
      Some(Fatal)
    else
      None
  }

  /**
    `TurboParseFlag(text, LogSeverity*, err)`: an enumerator name (any case,
    optional leading 'k') or an integer; empty text and anything else fail with
    an error message and leave `*dst` unchanged.
  */
  function ParseLogSeverity(text: string, dst: LogSeverity, err: string, strtoi: Strtoi<int32>): (r: SeverityOutcome)
    ensures Strip(text) == [] ==> r == SeverityOutcome(false, dst, NoValueError)
    ensures r.ok ==> r.err == err
    ensures !r.ok ==> r.dst == dst
    ensures !r.ok && Strip(text) != [] ==> r.err == NotASeverityError
    ensures Strip(text) != [] && MatchesAnyWord(DropK(Strip(text)), SeverityNames) ==> r.ok && r.dst in Severities
    ensures var p := ParseFlagImpl(DropK(Strip(text)), strtoi);
      Strip(text) != [] && !MatchesAnyWord(DropK(Strip(text)), SeverityNames) ==>
        r.ok == p.ok && (r.ok ==> r.dst == LogSeverity(p.dst))
  {
    var t := Strip(text);
    if t == [] then SeverityOutcome(false, dst, NoValueError)
    else
      var t := DropK(t);
      match SeverityByName(t)
      case Some(severity) => SeverityOutcome(true, severity, err)
      case None =>
        var numeric := ParseInt(t, 0, strtoi);
        if numeric.ok then SeverityOutcome(true, LogSeverity(numeric.dst), err)
        else SeverityOutcome(false, dst, NotASeverityError)
  }

  /** A text equal up to case to the `i`-th name is given the `i`-th enumerator. */
  lemma SeverityByNameMeaning(t: string, i: nat)
    requires i < |SeverityNames| && EqualsIgnoreCase(t, SeverityNames[i])
    ensures SeverityByName(t) == Some(Severities[i])
  {
    forall j | 0 <= j < i
      ensures !EqualsIgnoreCase(t, SeverityNames[j])
    {
      SeverityNamesDistinct(t, j, i);
    }
    if i == 0 {
      assert EqualsIgnoreCase(t, "info");
    } else if i == 1 {
      assert EqualsIgnoreCase(t, "warning") && !EqualsIgnoreCase(t, "info");
    } else if i == 2 {
      assert EqualsIgnoreCase(t, "error") && !EqualsIgnoreCase(t, "info") && !EqualsIgnoreCase(t, "warning");
    } else {
      assert EqualsIgnoreCase(t, "fatal") && !EqualsIgnoreCase(t, "info") && !EqualsIgnoreCase(t, "warning");
      SeverityNamesDistinct(t, 2, 3);
      assert SeverityNames[2] == "error";
    }
  }

  /** The four names differ even up to case, so a text matches at most one of them. */
  lemma SeverityNamesDistinct(t: string, i: nat, j: nat)
    requires i < j < |SeverityNames|
    ensures EqualsIgnoreCase(t, SeverityNames[i]) ==> !EqualsIgnoreCase(t, SeverityNames[j])
  {
    FirstLetterSeparates(t, SeverityNames[i], SeverityNames[j]);
  }

  /** Once stripped and without its 'k', a text equal to the `i`-th name up to case parses as the `i`-th enumerator. */
  lemma ParsesAsNamedSeverity(text: string, i: nat, dst: LogSeverity, err: string, strtoi: Strtoi<int32>)
    requires Strip(text) != []
    requires i < |SeverityNames| && EqualsIgnoreCase(DropK(Strip(text)), SeverityNames[i])
    ensures ParseLogSeverity(text, dst, err, strtoi) == SeverityOutcome(true, Severities[i], err)
  {
    SeverityByNameMeaning(DropK(Strip(text)), i);
  }

  /** A name with an optional 'k' in front neither starts nor ends with whitespace, and `DropK` recovers the name. */
  lemma PrefixedName(prefix: string, name: string, i: nat)
    requires prefix == "" || prefix == "k" || prefix == "K"
    requires i < |SeverityNames| && EqualsIgnoreCase(name, SeverityNames[i])
    ensures prefix + name != [] && Trimmed(prefix + name)
    ensures DropK(prefix + name) == name
  {
    var m := prefix + name;
    assert ToLower(name[0]) == ToLower(SeverityNames[i][0]);
    assert ToLower(name[|name| - 1]) == ToLower(SeverityNames[i][|SeverityNames[i]| - 1]);
    if prefix != "" {
      assert m[1..] == name;
    }
  }

  /**
    Every enumerator is accepted under its name in any case, with or without a
    leading 'k' or 'K' and surrounded by any whitespace ("kInfo", " WARNING\n").
  */
  lemma NamedSeverityParses(w1: string, prefix: string, name: string, w2: string, i: nat,
                            dst: LogSeverity, err: string, strtoi: Strtoi<int32>)
    requires AllSpace(w1) && AllSpace(w2)
    requires prefix == "" || prefix == "k" || prefix == "K"
    requires i < |SeverityNames| && EqualsIgnoreCase(name, SeverityNames[i])
    ensures ParseLogSeverity(w1 + prefix + name + w2, dst, err, strtoi) == SeverityOutcome(true, Severities[i], err)
  {
    var m := prefix + name;
    var text := w1 + prefix + name + w2;
    assert Strip(text) == m by {
      PrefixedName(prefix, name, i);
      Assoc(w1, prefix, name);
      StripSurrounded(w1, m, w2);
    }
    assert DropK(m) == name by {
      PrefixedName(prefix, name, i);
    }
    ParsesAsNamedSeverity(text, i, dst, err, strtoi);
  }

  /** Blank text is rejected with "no value provided". */
  lemma BlankSeverityRejected(w: string, dst: LogSeverity, err: string, strtoi: Strtoi<int32>)
    requires AllSpace(w)
    ensures ParseLogSeverity(w, dst, err, strtoi) == SeverityOutcome(false, dst, NoValueError)
  {
    StripSurrounded(w, [], []);
    AppendNothing(w);
  }
}
