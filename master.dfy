/** The LaTeX glossary snippet builder of Master.py: escaping of LaTeX
    special characters, sanitising of glossary keys, and assembly of a
    `\newglossaryentry` snippet from the fields of the form. */
module Master {
  import opened Wrappers

  // ---------------------------------------------------------------------
  // Joining strings (Python's `sep.join(xs)`)
  // ---------------------------------------------------------------------

  /** The strings of `xs` in order, with `sep` between neighbours. */
  function Join(xs: seq<string>, sep: string): (r: string)
    decreases |xs|
  {
    if |xs| == 0 then ""
    else if |xs| == 1 then xs[0]
    else Join(xs[..|xs| - 1], sep) + sep + xs[|xs| - 1]
  }

  lemma JoinSnoc(xs: seq<string>, x: string, sep: string)
    ensures Join(xs + [x], sep) == if xs == [] then x else Join(xs, sep) + sep + x
  {
    assert (xs + [x])[..|xs|] == xs;
  }

  /** `"".join` of one more string. */
  lemma ConcatSnoc(xs: seq<string>, x: string)
    ensures Join(xs + [x], "") == Join(xs, "") + x
  {
    JoinSnoc(xs, x, "");
    if xs == [] {
      assert Join(xs, "") == "";
    }
  }

  /** The length of a join: all parts and one separator between each two. */
  lemma {:induction false} JoinLength(xs: seq<string>, sep: string)
    requires |xs| >= 1
    ensures |Join(xs, sep)| == SumLengths(xs) + (|xs| - 1) * |sep|
    decreases |xs|
  {
    if |xs| > 1 {
      JoinLength(xs[..|xs| - 1], sep);
      SumLengthsSnoc(xs[..|xs| - 1], xs[|xs| - 1]);
      assert xs[..|xs| - 1] + [xs[|xs| - 1]] == xs;
    }
  }

  function SumLengths(xs: seq<string>): nat
  {
    if xs == [] then 0 else |xs[0]| + SumLengths(xs[1..])
  }

  lemma {:induction false} SumLengthsSnoc(xs: seq<string>, x: string)
    ensures SumLengths(xs + [x]) == SumLengths(xs) + |x|
  {
    if xs != [] {
      assert (xs + [x])[1..] == xs[1..] + [x];
      SumLengthsSnoc(xs[1..], x);
    }
  }

  // ---------------------------------------------------------------------
  // LaTeX escaping (Master.py:6-26)
  // ---------------------------------------------------------------------

  /** `LATEX_SPECIALS`: each LaTeX special character and its escape. */
  const LatexSpecials: map<char, string> := map[
    '&' := "\\&",
    '%' := "\\%",
    '$' := "\\$",
    '#' := "\\#",
    '_' := "\\_",
    '{' := "\\{",
    '}' := "\\}",
    '~' := "\\textasciitilde{}",
    '^' := "\\textasciicircum{}",
    '\\' := "\\textbackslash{}"
  ]

  /** Every escape starts with a backslash and is longer than its key. */
  lemma LatexSpecialsShape(ch: char)
    requires ch in LatexSpecials
    ensures |LatexSpecials[ch]| >= 2 && LatexSpecials[ch][0] == '\\'
  {
  }

  /** `LATEX_SPECIALS.get(ch, ch)`. */
  function EscapeChar(ch: char): (e: string)
    ensures |e| >= 1
  {
    if ch in LatexSpecials then LatexSpecials[ch] else [ch]
  }

  /** The strings `f(c)` for the characters `c` of `text`, concatenated in
      order. */
  function FlatMap(f: char -> string, text: string): (r: string)
    decreases |text|
  {
    if text == [] then []
    else FlatMap(f, text[..|text| - 1]) + f(text[|text| - 1])
  }

  lemma {:induction false} FlatMapAppend(f: char -> string, a: string, b: string)
    ensures FlatMap(f, a + b) == FlatMap(f, a) + FlatMap(f, b)
    decreases |b|
  {
    if b == [] {
      assert a + b == a;
    } else {
      var b' := b[..|b| - 1];
      assert (a + b)[..|a + b| - 1] == a + b';
      assert (a + b)[|a + b| - 1] == b[|b| - 1];
      FlatMapAppend(f, a, b');
    }
  }

  /** The text `latex_escape` returns. */
  function Escaped(text: string): (r: string)
  {
    FlatMap(EscapeChar, text)
  }

  /** Never shorter than the input, since no escape is shorter than its key. */
  lemma {:induction false} EscapedLength(text: string)
    ensures |Escaped(text)| >= |text|
    decreases |text|
  {
    if text != [] {
      EscapedLength(text[..|text| - 1]);
    }
  }

  /** `latex_escape`: the `for` loop of Master.py:19-26 collects the escape of
      each character in `out` and returns `"".join(out)`. */
  method LatexEscape(text: string) returns (r: string)
    ensures r == Escaped(text)
  {
    if |text| == 0 {
      return "";
    }
    var out: seq<string> := [];
    for j := 0 to |text|
      invariant |out| == j
      invariant Join(out, "") == Escaped(text[..j])
    {
      var e := EscapeChar(text[j]);
      ConcatSnoc(out, e);
      EscapedPrefix(text, j);
      out := out + [e];
    }
    assert text[..|text|] == text;
    r := Join(out, "");
  }

  lemma EscapedPrefix(text: string, j: nat)
    requires j < |text|
    ensures Escaped(text[..j + 1]) == Escaped(text[..j]) + EscapeChar(text[j])
  {
    assert text[..j + 1][..j] == text[..j] && text[..j + 1][j] == text[j];
  }

  /** Escaping works character by character. */
  lemma EscapedAppend(a: string, b: string)
    ensures Escaped(a + b) == Escaped(a) + Escaped(b)
  {
    FlatMapAppend(EscapeChar, a, b);
  }

  /** Text without special characters passes through unchanged. */
  lemma {:induction false} EscapedPlain(text: string)
    requires forall i :: 0 <= i < |text| ==> text[i] !in LatexSpecials
    ensures Escaped(text) == text
    decreases |text|
  {
    if text != [] {
      EscapedPlain(text[..|text| - 1]);
      assert text[..|text| - 1] + [text[|text| - 1]] == text;
    }
  }

  /** `latex_escape` returns "" exactly on "" (so `not name` after escaping
      is `not name` before). */
  lemma EscapedEmpty(text: string)
    ensures Escaped(text) == [] <==> text == []
  {
    EscapedLength(text);
  }

  lemma EscapedCons(c: char, rest: string)
    ensures Escaped([c] + rest) == EscapeChar(c) + Escaped(rest)
  {
    EscapedAppend([c], rest);
    assert [c][..0] == [];
    assert FlatMap(EscapeChar, [c]) == FlatMap(EscapeChar, []) + EscapeChar(c);
  }

  /** Reads LaTeX text back: each escape produced by `EscapeChar` becomes
      its character again. */
  function Unescape(s: string): (r: string)
    decreases |s|
  {
    if s == [] then []
    else if s[0] != '\\' || |s| < 2 then [s[0]] + Unescape(s[1..])
    else if s[1] in "&%$#_{}" then [s[1]] + Unescape(s[2..])
    else if |s| >= 17 && s[..17] == "\\textasciitilde{}" then ['~'] + Unescape(s[17..])
    else if |s| >= 18 && s[..18] == "\\textasciicircum{}" then ['^'] + Unescape(s[18..])
    else if |s| >= 16 && s[..16] == "\\textbackslash{}" then ['\\'] + Unescape(s[16..])
    else [s[0]] + Unescape(s[1..])
  }

  lemma UnescapeShort(c: char, rest: string)
    requires c in "&%$#_{}"
    ensures Unescape(['\\', c] + rest) == [c] + Unescape(rest)
  {
    var s := ['\\', c] + rest;
    assert s[1] == c && s[2..] == rest;
  }

  lemma UnescapeTilde(rest: string)
    ensures Unescape("\\textasciitilde{}" + rest) == ['~'] + Unescape(rest)
  {
    var s := "\\textasciitilde{}" + rest;
    assert s[1] == 't';
    assert s[..17] == "\\textasciitilde{}" && s[17..] == rest;
  }

  lemma UnescapeCircum(rest: string)
    ensures Unescape("\\textasciicircum{}" + rest) == ['^'] + Unescape(rest)
  {
    var s := "\\textasciicircum{}" + rest;
    assert s[1] == 't' && s[10] == 'c';
    assert s[..17] != "\\textasciitilde{}";
    assert s[..18] == "\\textasciicircum{}" && s[18..] == rest;
  }

  lemma UnescapeBackslash(rest: string)
    ensures Unescape("\\textbackslash{}" + rest) == ['\\'] + Unescape(rest)
  {
    var s := "\\textbackslash{}" + rest;
    assert s[1] == 't' && s[5] == 'b';
    assert |s| >= 17 ==> s[..17] != "\\textasciitilde{}";
    assert |s| >= 18 ==> s[..18] != "\\textasciicircum{}";
    assert s[..16] == "\\textbackslash{}" && s[16..] == rest;
  }

  /** Each escape reads back as its character, whatever follows it. */
  lemma UnescapeCons(c: char, rest: string)
    ensures Unescape(EscapeChar(c) + rest) == [c] + Unescape(rest)
  {
    if c == '~' {
      UnescapeTilde(rest);
    } else if c == '^' {
      UnescapeCircum(rest);
    } else if c == '\\' {
      UnescapeBackslash(rest);
    } else if c in LatexSpecials {
      assert EscapeChar(c) == ['\\', c];
      UnescapeShort(c, rest);
    } else {
      var s := EscapeChar(c) + rest;
      assert s[0] == c && s[1..] == rest;
    }
  }

  /** Escaping loses nothing: the text can be read back from its escape. */
  lemma {:induction false} UnescapeEscaped(text: string)
    ensures Unescape(Escaped(text)) == text
    decreases |text|
  {
    if text != [] {
      EscapedCons(text[0], text[1..]);
      assert [text[0]] + text[1..] == text;
      UnescapeCons(text[0], Escaped(text[1..]));
      UnescapeEscaped(text[1..]);
    }
  }

  /** Two texts with the same escape are the same text. */
  lemma EscapedInjective(a: string, b: string)
    requires Escaped(a) == Escaped(b)
    ensures a == b
  {
    UnescapeEscaped(a);
    UnescapeEscaped(b);
  }

  // ---------------------------------------------------------------------
  // Key sanitising (Master.py:28-34)
  // ---------------------------------------------------------------------

  /** The characters Python's `str.strip()` removes: those for which
      `str.isspace()` holds. */
  predicate IsWhitespace(c: char)
  {
    ('\t' <= c <= '\r') || ('\U{1C}' <= c <= ' ')
    || c == '\U{85}' || c == '\U{A0}' || c == '\U{1680}'
    || ('\U{2000}' <= c <= '\U{200A}')
    || c == '\U{2028}' || c == '\U{2029}' || c == '\U{202F}' || c == '\U{205F}' || c == '\U{3000}'
  }

  /** `s` without its leading whitespace. */
  function StripLeft(s: string): (r: string)
    ensures |r| <= |s| && r == s[|s| - |r|..]
    ensures forall i :: 0 <= i < |s| - |r| ==> IsWhitespace(s[i])
    ensures r != [] ==> !IsWhitespace(r[0])
    decreases |s|
  {
    if s != [] && IsWhitespace(s[0]) then StripLeft(s[1..]) else s
  }

  /** `s` without its trailing whitespace. */
  function StripRight(s: string): (r: string)
    ensures |r| <= |s| && r == s[..|r|]
    ensures forall i :: |r| <= i < |s| ==> IsWhitespace(s[i])
    ensures r != [] ==> !IsWhitespace(r[|r| - 1])
    decreases |s|
  {
    if s != [] && IsWhitespace(s[|s| - 1]) then StripRight(s[..|s| - 1]) else s
  }

  /** Python's `s.strip()`. */
  function Strip(s: string): (r: string)
    ensures r != [] ==> !IsWhitespace(r[0]) && !IsWhitespace(r[|r| - 1])
  {
    StripRight(StripLeft(s))
  }

  /** Everything of `s` before `a` and from `b` on is whitespace. */
  predicate WhitespaceOutside(s: string, a: int, b: int)
    requires 0 <= a <= b <= |s|
  {
    (forall i :: 0 <= i < a ==> IsWhitespace(s[i]))
    && (forall i :: b <= i < |s| ==> IsWhitespace(s[i]))
  }

  /** Whitespace at the end of a suffix is whitespace at the end of the text. */
  lemma TrailingWhitespaceOfSuffix(s: string, a: int, b: int)
    requires 0 <= a <= b <= |s|
    requires forall j :: b - a <= j < |s| - a ==> IsWhitespace(s[a..][j])
    ensures forall i :: b <= i < |s| ==> IsWhitespace(s[i])
  {
    forall i | b <= i < |s|
      ensures IsWhitespace(s[i])
    {
      assert s[i] == s[a..][i - a];
    }
  }

  /** `Strip(s)` is the slice of `s` left once whitespace is cut from
      both ends: everything before it and after it is whitespace. */
  lemma StripSlice(s: string)
    ensures exists a, b :: 0 <= a <= b <= |s| && WhitespaceOutside(s, a, b) && Strip(s) == s[a..b]
  {
    var l := StripLeft(s);
    var a := |s| - |l|;
    var b := a + |StripRight(l)|;
    TrailingWhitespaceOfSuffix(s, a, b);
    assert Strip(s) == s[a..][..b - a] == s[a..b];
    assert WhitespaceOutside(s, a, b);
  }

  /** Text with no whitespace at either end is its own strip. */
  lemma StripUnchanged(s: string)
    requires s == [] || (!IsWhitespace(s[0]) && !IsWhitespace(s[|s| - 1]))
    ensures Strip(s) == s
  {
  }

  /** Python's `s.replace(" ", "_")`. */
  function ReplaceSpaces(s: string): (r: string)
    ensures |r| == |s|
    ensures forall i :: 0 <= i < |s| ==> r[i] == (if s[i] == ' ' then '_' else s[i])
  {
    if s == [] then [] else [if s[0] == ' ' then '_' else s[0]] + ReplaceSpaces(s[1..])
  }

  /** The `allowed` alphabet of `sanitize_key`: ASCII letters, digits, '-'
      and '_'. */
  predicate IsAllowed(c: char)
  {
    ('a' <= c <= 'z') || ('A' <= c <= 'Z') || ('0' <= c <= '9') || c == '-' || c == '_'
  }

  /** The characters of `s` that are allowed, in order. */
  function KeepAllowed(s: string): (r: string)
    ensures forall i :: 0 <= i < |r| ==> IsAllowed(r[i])
    ensures |r| <= |s|
  {
    if s == [] then []
    else (if IsAllowed(s[0]) then [s[0]] else []) + KeepAllowed(s[1..])
  }

  /** `sanitize_key`: strip, spaces to '_', keep only the allowed
      characters. */
  function SanitizeKey(key: string): (r: string)
    ensures forall i :: 0 <= i < |r| ==> IsAllowed(r[i])
    ensures ' ' !in r
  {
    KeepAllowed(ReplaceSpaces(Strip(key)))
  }

  /** `a` can be obtained from `b` by deleting characters. */
  predicate IsSubsequence(a: string, b: string)
    decreases |b|
  {
    if a == [] then true
    else if b == [] then false
    else if a[0] == b[0] then IsSubsequence(a[1..], b[1..])
    else IsSubsequence(a, b[1..])
  }

  lemma {:induction false} KeepAllowedSubsequence(s: string)
    ensures IsSubsequence(KeepAllowed(s), s)
  {
    if s != [] {
      KeepAllowedSubsequence(s[1..]);
      if IsAllowed(s[0]) {
        assert KeepAllowed(s) == [s[0]] + KeepAllowed(s[1..]);
        assert KeepAllowed(s)[1..] == KeepAllowed(s[1..]);
      } else {
        assert KeepAllowed(s) == KeepAllowed(s[1..]);
        SubsequenceOfTail(KeepAllowed(s[1..]), s);
      }
    }
  }

  lemma SubsequenceOfTail(a: string, b: string)
    requires b != [] && IsSubsequence(a, b[1..])
    ensures IsSubsequence(a, b)
    decreases |a| + |b|
  {
    if a != [] && a[0] == b[0] {
      SubsequenceDropHead(a, b[1..]);
    }
  }

  /** Dropping the first character of `a` keeps it a subsequence. */
  lemma SubsequenceDropHead(a: string, b: string)
    requires a != [] && IsSubsequence(a, b)
    ensures IsSubsequence(a[1..], b)
    decreases |a| + |b|
  {
    if a[0] != b[0] {
      SubsequenceDropHead(a, b[1..]);
    }
    SubsequenceOfTail(a[1..], b);
  }

  /** The key is what is left of the stripped key, with spaces made '_',
      after deleting characters. */
  lemma SanitizeKeySubsequence(key: string)
    ensures IsSubsequence(SanitizeKey(key), ReplaceSpaces(Strip(key)))
  {
    KeepAllowedSubsequence(ReplaceSpaces(Strip(key)));
  }

  /** Every allowed character survives, as often as it occurs, and nothing
      else does. */
  lemma {:induction false} KeepAllowedCounts(s: string, c: char)
    ensures multiset(KeepAllowed(s))[c] == if IsAllowed(c) then multiset(s)[c] else 0
  {
    if s != [] {
      KeepAllowedCounts(s[1..], c);
      assert s == [s[0]] + s[1..];
      assert multiset(s) == multiset([s[0]]) + multiset(s[1..]);
    }
  }

  lemma {:induction false} KeepAllowedUnchanged(s: string)
    requires forall i :: 0 <= i < |s| ==> IsAllowed(s[i])
    ensures KeepAllowed(s) == s
  {
    if s != [] {
      KeepAllowedUnchanged(s[1..]);
    }
  }

  lemma {:induction false} ReplaceSpacesUnchanged(s: string)
    requires ' ' !in s
    ensures ReplaceSpaces(s) == s
  {
    if s != [] {
      assert s[0] in s;
      assert forall c :: c in s[1..] ==> c in s;
      ReplaceSpacesUnchanged(s[1..]);
    }
  }

  /** No allowed character is whitespace. */
  lemma AllowedNotWhitespace(c: char)
    requires IsAllowed(c)
    ensures !IsWhitespace(c)
  {
  }

  /** A text of allowed characters is its own strip. */
  lemma AllowedStripped(k: string)
    requires forall i :: 0 <= i < |k| ==> IsAllowed(k[i])
    ensures Strip(k) == k
  {
    if k != [] {
      AllowedNotWhitespace(k[0]);
      AllowedNotWhitespace(k[|k| - 1]);
    }
    StripUnchanged(k);
  }

  /** Sanitising a sanitised key changes nothing. */
  lemma SanitizeKeyIdempotent(key: string)
    ensures SanitizeKey(SanitizeKey(key)) == SanitizeKey(key)
  {
    var k := SanitizeKey(key);
    AllowedStripped(k);
    ReplaceSpacesUnchanged(k);
    KeepAllowedUnchanged(k);
  }

  // ---------------------------------------------------------------------
  // The glossary entry (Master.py:38-69)
  // ---------------------------------------------------------------------

  /** One line of the entry body: `  tag={value}`. */
  function Field(tag: string, value: string): (f: string)
  {
    "  " + tag + "={" + value + "}"
  }

  /** The line for an optional field: present only when its value is not
      empty. */
  function Optional(tag: string, value: string): (fs: seq<string>)
    ensures |fs| == if value != [] then 1 else 0
  {
    if value != [] then [Field(tag, value)] else []
  }

  /** `fields.append(...)` under `if value:` appends `Optional(tag, value)`. */
  lemma AppendOptional(fs: seq<string>, tag: string, value: string)
    ensures (if |value| > 0 then fs + [Field(tag, value)] else fs) == fs + Optional(tag, value)
  {
    if |value| == 0 {
      assert fs + [] == fs;
    }
  }

  /** The `fields` list: `name` first, then each optional field whose value
      is not empty, in the order symbol, user1, plural, and `description`
      last. */
  function EntryFields(name: string, symbol: string, user1: string, plural: string, description: string)
    : (fs: seq<string>)
    ensures 2 <= |fs| <= 5
    ensures fs[0] == Field("name", name) && fs[|fs| - 1] == Field("description", description)
    ensures |fs| == 2 + (if symbol != [] then 1 else 0) + (if user1 != [] then 1 else 0)
                      + (if plural != [] then 1 else 0)
  {
    [Field("name", name)] + Optional("symbol", symbol) + Optional("user1", user1)
    + Optional("plural", plural) + [Field("description", description)]
  }

  lemma FieldTagAt(tag: string, value: string)
    requires |tag| >= 1
    ensures |Field(tag, value)| >= 3 && Field(tag, value)[2] == tag[0]
  {
  }

  /** An optional field is in the list exactly when its value is not
      empty (the tags start with different letters, so no other line can
      look like it). */
  lemma EntryFieldsPresent(name: string, symbol: string, user1: string, plural: string, description: string)
    ensures Field("symbol", symbol) in EntryFields(name, symbol, user1, plural, description) <==> symbol != []
    ensures Field("user1", user1) in EntryFields(name, symbol, user1, plural, description) <==> user1 != []
    ensures Field("plural", plural) in EntryFields(name, symbol, user1, plural, description) <==> plural != []
  {
    var fs := EntryFields(name, symbol, user1, plural, description);
    FieldTagAt("name", name);
    FieldTagAt("symbol", symbol);
    FieldTagAt("user1", user1);
    FieldTagAt("plural", plural);
    FieldTagAt("description", description);
    assert fs == [Field("name", name)] + Optional("symbol", symbol) + Optional("user1", user1)
               + Optional("plural", plural) + [Field("description", description)];
  }

  /** The snippet text for a key and its body lines. */
  function Snippet(key: string, fields: seq<string>): (s: string)
  {
    "\\newglossaryentry{" + key + "}{\n" + Join(fields, ",\n") + "\n}\n"
  }

  /** A sanitised key is delimited in the snippet: it stands right after
      `\\newglossaryentry{` and is closed by the first '}' of the text. */
  lemma SnippetKey(key: string, fields: seq<string>)
    requires forall i :: 0 <= i < |key| ==> IsAllowed(key[i])
    ensures |Snippet(key, fields)| > 18 + |key|
    ensures Snippet(key, fields)[..18] == "\\newglossaryentry{"
    ensures Snippet(key, fields)[18..18 + |key|] == key
    ensures Snippet(key, fields)[18 + |key|] == '}'
    ensures '}' !in Snippet(key, fields)[..18 + |key|]
  {
    var s := Snippet(key, fields);
    var head := "\\newglossaryentry{";
    assert s == head + key + ("}{\n" + Join(fields, ",\n") + "\n}\n");
    assert s[..18] == head;
    assert s[18..18 + |key|] == key;
    assert s[..18 + |key|] == head + key;
    forall i | 0 <= i < 18 + |key|
      ensures s[i] != '}'
    {
      if i >= 18 {
        assert s[i] == key[i - 18];
      }
    }
  }

  /** `make_glossary_entry`: sanitise and escape the inputs, check the
      required fields in order (raising `ValueError`), then build the body
      lines by conditional appends and join them into the snippet. */
  method MakeGlossaryEntry(key: string, name: string, symbol: string, user1: string,
                           plural: string, description: string)
    returns (r: Result<string>)
    ensures SanitizeKey(key) == [] ==> r == Err("Key is required.")
    ensures SanitizeKey(key) != [] && Strip(name) == [] ==> r == Err("Name (the word) is required.")
    ensures SanitizeKey(key) != [] && Strip(name) != [] && Strip(description) == [] ==>
              r == Err("Description is required.")
    ensures SanitizeKey(key) != [] && Strip(name) != [] && Strip(description) != [] ==>
              r == Ok(Snippet(SanitizeKey(key),
                              EntryFields(Escaped(Strip(name)), Escaped(Strip(symbol)),
                                          Escaped(Strip(user1)), Escaped(Strip(plural)),
                                          Escaped(Strip(description)))))
  {
    var k := SanitizeKey(key);
    var n := LatexEscape(Strip(name));
    var s := LatexEscape(Strip(symbol));
    var u := LatexEscape(Strip(user1));
    var p := LatexEscape(Strip(plural));
    var d := LatexEscape(Strip(description));
    EscapedEmpty(Strip(name));
    EscapedEmpty(Strip(description));

    if |k| == 0 {
      return Err("Key is required.");
    }
    if |n| == 0 {
      return Err("Name (the word) is required.");
    }
    if |d| == 0 {
      return Err("Description is required.");
    }

    var fields := [Field("name", n)];
    AppendOptional(fields, "symbol", s);
    if |s| > 0 {
      fields := fields + [Field("symbol", s)];
    }
    AppendOptional(fields, "user1", u);
    if |u| > 0 {
      fields := fields + [Field("user1", u)];
    }
    AppendOptional(fields, "plural", p);
    if |p| > 0 {
      fields := fields + [Field("plural", p)];
    }
    fields := fields + [Field("description", d)];
    var body := Join(fields, ",\n");
    r := Ok("\\newglossaryentry{" + k + "}{\n" + body + "\n}\n");
  }
}
