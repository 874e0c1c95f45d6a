/** The two digit-grouping formatters of Numbers/Formatting.py.

    Both scan the decimal text of their input from the right, one character
    per step, and put a comma before every third character counted from the
    RIGHT END OF THE WHOLE STRING, never before the leftmost character. The
    second one also never puts a comma before a '.' standing at such a
    position. Neither counts from the decimal point. */
module Formatting {

  // ---------------------------------------------------------------------
  // Decimal text of a natural number (Python's `str` on a non-negative int)
  // ---------------------------------------------------------------------

  function DigitChar(d: nat): (c: char)
    requires d < 10
    ensures '0' <= c <= '9'
    ensures (c as int) - ('0' as int) == d
  {
    "0123456789"[d]
  }

  /** The decimal numeral of `n`, without sign or leading zeros. */
  function Str(n: nat): (s: string)
    ensures |s| >= 1
    ensures forall i :: 0 <= i < |s| ==> '0' <= s[i] <= '9'
    ensures |s| > 1 ==> s[0] != '0'
  {
    if n < 10 then [DigitChar(n)] else Str(n / 10) + [DigitChar(n % 10)]
  }

  /** Python's `str` on an int: the numeral, with a '-' in front when the
      number is negative. */
  function PyStr(n: int): (s: string)
    ensures |s| >= 1 && ',' !in s
    ensures s[0] == '-' <==> n < 0
  {
    if n < 0 then "-" + Str(-n) else Str(n)
  }

  /** The number a string of decimal digits denotes. */
  function Value(s: string): (v: nat)
    requires forall i :: 0 <= i < |s| ==> '0' <= s[i] <= '9'
  {
    if s == [] then 0 else 10 * Value(s[..|s| - 1]) + ((s[|s| - 1] as int) - ('0' as int))
  }

  /** Reading the numeral back gives the number. */
  lemma {:induction false} ValueStr(n: nat)
    ensures Value(Str(n)) == n
  {
    if n >= 10 {
      var s := Str(n);
      assert s[..|s| - 1] == Str(n / 10);
      ValueStr(n / 10);
    }
  }

  // ---------------------------------------------------------------------
  // Commas
  // ---------------------------------------------------------------------

  /** `s` with every ',' removed. */
  function RemoveCommas(s: string): (r: string)
    ensures ',' !in r
    ensures |r| <= |s|
  {
    if s == [] then []
    else if s[0] == ',' then RemoveCommas(s[1..])
    else [s[0]] + RemoveCommas(s[1..])
  }

  /** The number of commas in `s`. */
  function CountCommas(s: string): (k: nat)
    ensures k <= |s|
    ensures k == 0 <==> ',' !in s
  {
    if s == [] then 0
    else (if s[0] == ',' then 1 else 0) + CountCommas(s[1..])
  }

  lemma {:induction false} RemoveCommasAppend(a: string, b: string)
    ensures RemoveCommas(a + b) == RemoveCommas(a) + RemoveCommas(b)
  {
    if a != [] {
      assert (a + b)[1..] == a[1..] + b;
      RemoveCommasAppend(a[1..], b);
    } else {
      assert a + b == b;
    }
  }

  lemma {:induction false} CountCommasAppend(a: string, b: string)
    ensures CountCommas(a + b) == CountCommas(a) + CountCommas(b)
  {
    if a != [] {
      assert (a + b)[1..] == a[1..] + b;
      CountCommasAppend(a[1..], b);
    } else {
      assert a + b == b;
    }
  }

  lemma {:induction false} RemoveCommasIdentity(s: string)
    requires ',' !in s
    ensures RemoveCommas(s) == s
  {
    if s != [] {
      assert s[0] in s;
      assert forall c :: c in s[1..] ==> c in s;
      RemoveCommasIdentity(s[1..]);
      assert s == [s[0]] + s[1..];
    }
  }

  // ---------------------------------------------------------------------
  // Integer version (Numbers/Formatting.py:12-29)
  // ---------------------------------------------------------------------

  /** What one iteration of the integer loop prepends when `count == k`:
      the character `k` places from the right end, with a comma before it
      when `k` is a multiple of three and it is not the leftmost character
      (`i == count - 1`, so `i != length - 1` is `k != |s|`). */
  function IntChunk(s: string, k: nat): (c: string)
    requires 1 <= k <= |s|
  {
    if k % 3 == 0 && k != |s| then [',', s[|s| - k]] else [s[|s| - k]]
  }

  /** The value of `output` once `count == k`: the chunks of the last `k`
      characters, rightmost chunk last. */
  function IntGrouped(s: string, k: nat): (r: string)
    requires k <= |s|
  {
    if k == 0 then [] else IntChunk(s, k) + IntGrouped(s, k - 1)
  }

  /** The result of the integer formatter on the text `s`. */
  function IntCommas(s: string): (r: string)
  {
    IntGrouped(s, |s|)
  }

  /** The integer formatter: `inputChar = str(input)` and the `while` loop
      of Numbers/Formatting.py:12-29, step for step. */
  method AddCommasToNumber(input: int) returns (output: string)
    ensures output == IntCommas(PyStr(input))
    ensures RemoveCommas(output) == PyStr(input)
    ensures CountCommas(output) == (|PyStr(input)| - 1) / 3
    ensures output[0] == PyStr(input)[0]
  {
    var inputChar := PyStr(input);
    var length := |inputChar|;
    var i, count := 0, 0;
    output := "";
    while i < length
      invariant i == count <= length
      invariant output == IntGrouped(inputChar, count)
    {
      count := count + 1;
      IntSliceStep(inputChar, count);
      if count % 3 == 0 {
        if i != length - 1 {
          output := "," + inputChar[length - count..length - count + 1] + output;
        } else {
          output := inputChar[length - count..length - count + 1] + output;
        }
      } else {
        output := inputChar[length - count..length - count + 1] + output;
      }
      i := i + 1;
    }
    IntCommasOnPlainText(inputChar);
  }

  /** One iteration of the integer loop, in the loop's own terms: the
      one-character slice, with a comma in front on a comma step. */
  lemma IntSliceStep(s: string, k: nat)
    requires 1 <= k <= |s|
    ensures IntGrouped(s, k)
         == (if k % 3 == 0 && k != |s| then "," + s[|s| - k..|s| - k + 1] else s[|s| - k..|s| - k + 1])
            + IntGrouped(s, k - 1)
  {
    SliceOne(s, |s| - k);
  }

  /** The one-character slice at `j`, as the loops take it. */
  lemma SliceOne(s: string, j: nat)
    requires j < |s|
    ensures s[j..j + 1] == [s[j]]
  {
  }

  /** An independent definition of grouping by threes: split off the last
      three characters, group the rest, join with a comma. */
  function GroupThrees(s: string): (r: string)
    decreases |s|
  {
    if |s| <= 3 then s else GroupThrees(s[..|s| - 3]) + [','] + s[|s| - 3..]
  }

  /** The comma, if any, that separates a character put in front of `u`. */
  function Lead(u: string): (l: string)
  {
    if |u| > 0 && |u| % 3 == 0 then [','] else []
  }

  /** Splitting off the last group of a text longer than three. */
  lemma GroupThreesUnfold(s: string)
    requires |s| > 3
    ensures GroupThrees(s) == GroupThrees(s[..|s| - 3]) + [','] + s[|s| - 3..]
  {
  }

  /** Putting one more character in front of `u`. */
  lemma {:induction false} GroupThreesCons(c: char, u: string)
    ensures GroupThrees([c] + u) == [c] + Lead(u) + GroupThrees(u)
    decreases |u|
  {
    var t := [c] + u;
    if |u| <= 2 {
      assert Lead(u) == [];
    } else if |u| == 3 {
      assert t[..|t| - 3] == [c] && t[|t| - 3..] == u;
      GroupThreesUnfold(t);
    } else {
      var p, w := u[..|u| - 3], u[|u| - 3..];
      assert t[..|t| - 3] == [c] + p && t[|t| - 3..] == w;
      assert Lead(p) == Lead(u);
      GroupThreesUnfold(t);
      GroupThreesUnfold(u);
      GroupThreesCons(c, p);
      assert GroupThrees(t) == ([c] + Lead(p) + GroupThrees(p)) + [','] + w;
    }
  }

  /** The comma that the step `count == k` puts in front of its character,
      on a text of length `n`. */
  function Front(n: nat, k: nat): (l: string)
  {
    if 0 < k < n && k % 3 == 0 then [','] else []
  }

  /** The loop's accumulator after `k` steps is the grouping of the last
      `k` characters, with a leading comma when the step that produced it
      was a comma step. */
  lemma {:induction false} IntGroupedIsGroupThrees(s: string, k: nat)
    requires k <= |s|
    ensures IntGrouped(s, k) == Front(|s|, k) + GroupThrees(s[|s| - k..])
  {
    if k > 0 {
      var c, u := s[|s| - k], s[|s| - (k - 1)..];
      IntGroupedIsGroupThrees(s, k - 1);
      FrontPrevious(|s|, k);
      SuffixCons(s, k);
      GroupThreesCons(c, u);
      IntGroupedStep(s, k);
      Regroup(Front(|s|, k), [c], Lead(u), GroupThrees(u));
    }
  }

  /** The comma before step `k - 1` is the comma put in front of the last
      `k - 1` characters. */
  lemma FrontPrevious(n: nat, k: nat)
    requires 0 < k <= n
    ensures Front(n, k - 1) == (if k - 1 > 0 && (k - 1) % 3 == 0 then [','] else [])
  {
  }

  /** The last `k` characters are the `k`-th from the right followed by
      the last `k - 1`. */
  lemma SuffixCons(s: string, k: nat)
    requires 0 < k <= |s|
    ensures s[|s| - k..] == [s[|s| - k]] + s[|s| - (k - 1)..]
  {
  }

  /** One step of the accumulator. */
  lemma IntGroupedStep(s: string, k: nat)
    requires 0 < k <= |s|
    ensures IntGrouped(s, k) == (Front(|s|, k) + [s[|s| - k]]) + IntGrouped(s, k - 1)
  {
  }

  /** Moving the brackets of a four-part concatenation. */
  lemma Regroup(a: string, b: string, c: string, d: string)
    ensures (a + b) + (c + d) == a + ((b + c) + d)
  {
  }

  /** The formatter groups by threes from the right end. */
  lemma IntCommasIsGroupThrees(s: string)
    ensures IntCommas(s) == GroupThrees(s)
  {
    IntGroupedIsGroupThrees(s, |s|);
    assert Front(|s|, |s|) == [];
    assert s[|s| - |s|..] == s;
  }

  /** Inputs of at most three characters come back unchanged. */
  lemma IntCommasShort(s: string)
    requires |s| <= 3
    ensures IntCommas(s) == s
  {
    IntCommasIsGroupThrees(s);
  }

  /** A chunk loses its comma, if it has one. */
  lemma ChunkRemove(chunk: string, c: char)
    requires chunk == [c] || chunk == [',', c]
    ensures RemoveCommas(chunk) == RemoveCommas([c])
  {
    if chunk == [',', c] {
      assert chunk[1..] == [c];
    }
  }

  /** Removing the commas gives back the input with its own commas removed. */
  lemma {:induction false} IntGroupedRemove(s: string, k: nat)
    requires k <= |s|
    ensures RemoveCommas(IntGrouped(s, k)) == RemoveCommas(s[|s| - k..])
  {
    if k > 0 {
      var c, u := s[|s| - k], s[|s| - (k - 1)..];
      var chunk, rest := IntChunk(s, k), IntGrouped(s, k - 1);
      assert RemoveCommas(rest) == RemoveCommas(u) by {
        IntGroupedRemove(s, k - 1);
      }
      assert RemoveCommas(chunk) == RemoveCommas([c]) by {
        ChunkRemove(chunk, c);
      }
      RemoveCommasAppend(chunk, rest);
      assert s[|s| - k..] == [c] + u;
      RemoveCommasAppend([c], u);
    }
  }

  lemma IntCommasRemove(s: string)
    ensures RemoveCommas(IntCommas(s)) == RemoveCommas(s)
  {
    IntGroupedRemove(s, |s|);
    assert s[0..] == s;
  }

  /** One comma per complete group of three left of the leftmost character. */
  lemma {:induction false} GroupThreesCount(s: string)
    requires |s| >= 1
    ensures CountCommas(GroupThrees(s)) == CountCommas(s) + (|s| - 1) / 3
    decreases |s|
  {
    if |s| > 3 {
      var p, t := s[..|s| - 3], s[|s| - 3..];
      GroupThreesUnfold(s);
      GroupThreesCount(p);
      CountCommasJoin(GroupThrees(p), t);
      SplitLastThree(s);
      CountCommasAppend(p, t);
      assert (|s| - 1) / 3 == (|p| - 1) / 3 + 1;
    }
  }

  /** Joining two texts with a comma adds one comma. */
  lemma CountCommasJoin(g: string, t: string)
    ensures CountCommas(g + [','] + t) == CountCommas(g) + 1 + CountCommas(t)
  {
    CountCommasAppend(g + [','], t);
    CountCommasAppend(g, [',']);
    assert CountCommas([',']) == 1;
  }

  lemma SplitLastThree(s: string)
    requires |s| >= 3
    ensures s == s[..|s| - 3] + s[|s| - 3..]
  {
  }

  /** The comma count of the integer formatter: `(length - 1) // 3` of them
      on input without commas. */
  lemma IntCommasCount(s: string)
    requires |s| >= 1
    ensures CountCommas(IntCommas(s)) == CountCommas(s) + (|s| - 1) / 3
  {
    IntCommasIsGroupThrees(s);
    GroupThreesCount(s);
  }

  /** The output starts with the input's first character, so never with a
      comma added by the formatter. */
  lemma IntCommasFirst(s: string)
    requires |s| >= 1
    ensures |IntCommas(s)| >= 1 && IntCommas(s)[0] == s[0]
  {
    if |s| == 1 {
    } else {
      assert IntCommas(s) == IntChunk(s, |s|) + IntGrouped(s, |s| - 1);
    }
  }

  /** What the integer formatter promises about text without commas. */
  lemma IntCommasOnPlainText(s: string)
    requires |s| >= 1 && ',' !in s
    ensures RemoveCommas(IntCommas(s)) == s
    ensures CountCommas(IntCommas(s)) == (|s| - 1) / 3
    ensures IntCommas(s)[0] == s[0]
  {
    IntCommasRemove(s);
    RemoveCommasIdentity(s);
    IntCommasCount(s);
    IntCommasFirst(s);
  }

  /** For a non-negative input, dropping the commas gives back its numeral,
      and reading the digits gives back the number. */
  lemma IntFormatterRoundTrip(n: nat)
    ensures RemoveCommas(IntCommas(Str(n))) == Str(n)
    ensures Value(RemoveCommas(IntCommas(Str(n)))) == n
  {
    IntCommasRemove(Str(n));
    RemoveCommasIdentity(Str(n));
    ValueStr(n);
  }

  /** The exact layout on comma-free input: there are `(|s| - 1) / 3` added
      characters, and position `j` holds a comma exactly when it is not the
      first position and is a multiple of four places from the right end;
      so every group right of the leftmost has three characters and the
      leftmost has one to three. */
  lemma {:induction false} GroupThreesLayout(s: string)
    requires ',' !in s
    ensures |GroupThrees(s)| == |s| + (if |s| == 0 then 0 else (|s| - 1) / 3)
    ensures forall j :: 0 <= j < |GroupThrees(s)| ==>
              (GroupThrees(s)[j] == ',' <==> j > 0 && (|GroupThrees(s)| - j) % 4 == 0)
    decreases |s|
  {
    if |s| <= 3 {
    } else {
      var p, t := s[..|s| - 3], s[|s| - 3..];
      assert forall c :: c in p ==> c in s;
      assert forall c :: c in t ==> c in s;
      GroupThreesLayout(p);
      var g, r := GroupThrees(p), GroupThrees(s);
      assert r == g + [','] + t;
      forall j | 0 <= j < |r|
        ensures r[j] == ',' <==> j > 0 && (|r| - j) % 4 == 0
      {
        LayoutAt(g, t, j);
      }
    }
  }

  /** One position of `g + [','] + t` where `g` is laid out as above and
      `t` is a comma-free group of three. */
  lemma LayoutAt(g: string, t: string, j: nat)
    requires |g| >= 1 && |t| == 3 && ',' !in t
    requires forall i :: 0 <= i < |g| ==> (g[i] == ',' <==> i > 0 && (|g| - i) % 4 == 0)
    requires j < |g| + 4
    ensures (g + [','] + t)[j] == ',' <==> j > 0 && (|g| + 4 - j) % 4 == 0
  {
    var r := g + [','] + t;
    if j < |g| {
      assert r[j] == g[j];
      assert (|r| - j) % 4 == (|g| - j) % 4;
    } else if j > |g| {
      assert r[j] == t[j - |g| - 1];
      assert t[j - |g| - 1] in t;
    }
  }

  lemma IntCommasLayout(s: string)
    requires |s| >= 1 && ',' !in s
    ensures |IntCommas(s)| == |s| + (|s| - 1) / 3
    ensures forall j :: 0 <= j < |IntCommas(s)| ==>
              (IntCommas(s)[j] == ',' <==> j > 0 && (|IntCommas(s)| - j) % 4 == 0)
  {
    IntCommasIsGroupThrees(s);
    GroupThreesLayout(s);
  }

  // ---------------------------------------------------------------------
  // Decimal version (Numbers/Formatting.py:45-64)
  // ---------------------------------------------------------------------

  /** What one iteration of the decimal loop prepends when `count == k`:
      as the integer version, except that a '.' never gets a comma. */
  function DecChunk(s: string, k: nat): (c: string)
    requires 1 <= k <= |s|
  {
    if k % 3 == 0 then
      (if s[|s| - k] == '.' then [s[|s| - k]]
       else if k != |s| then [',', s[|s| - k]]
       else [s[|s| - k]])
    else [s[|s| - k]]
  }

  function DecGrouped(s: string, k: nat): (r: string)
    requires k <= |s|
  {
    if k == 0 then [] else DecChunk(s, k) + DecGrouped(s, k - 1)
  }

  /** The result of the decimal formatter on the text `s`. */
  function DecCommas(s: string): (r: string)
  {
    DecGrouped(s, |s|)
  }

  /** The decimal formatter: the `while` loop of Numbers/Formatting.py:45-64
      on the text `inputChar`, step for step. */
  method AddCommasToDecimal(inputChar: string) returns (output: string)
    ensures output == DecCommas(inputChar)
    ensures RemoveCommas(output) == RemoveCommas(inputChar)
    ensures '.' !in inputChar ==> output == IntCommas(inputChar)
    ensures |inputChar| >= 1 ==> |output| >= 1 && output[0] == inputChar[0]
  {
    var length := |inputChar|;
    var i, count := 0, 0;
    output := "";
    while i < length
      invariant i == count <= length
      invariant output == DecGrouped(inputChar, count)
    {
      count := count + 1;
      DecSliceStep(inputChar, count);
      if count % 3 == 0 {
        if inputChar[length - count..length - count + 1] == "." {
          output := inputChar[length - count..length - count + 1] + output;
        } else if i != length - 1 {
          output := "," + inputChar[length - count..length - count + 1] + output;
        } else {
          output := inputChar[length - count..length - count + 1] + output;
        }
      } else {
        output := inputChar[length - count..length - count + 1] + output;
      }
      i := i + 1;
    }
    DecCommasRemove(inputChar);
    if |inputChar| >= 1 {
      DecCommasFirst(inputChar);
    }
    if '.' !in inputChar {
      DecCommasNoPoint(inputChar);
    }
  }

  /** One iteration of the decimal loop, in the loop's own terms. */
  lemma DecSliceStep(s: string, k: nat)
    requires 1 <= k <= |s|
    ensures DecGrouped(s, k)
         == (if k % 3 == 0 && s[|s| - k..|s| - k + 1] != "." && k != |s|
             then "," + s[|s| - k..|s| - k + 1] else s[|s| - k..|s| - k + 1])
            + DecGrouped(s, k - 1)
  {
    SliceOne(s, |s| - k);
  }

  lemma {:induction false} DecGroupedRemove(s: string, k: nat)
    requires k <= |s|
    ensures RemoveCommas(DecGrouped(s, k)) == RemoveCommas(s[|s| - k..])
  {
    if k > 0 {
      var c, u := s[|s| - k], s[|s| - (k - 1)..];
      var chunk, rest := DecChunk(s, k), DecGrouped(s, k - 1);
      assert RemoveCommas(rest) == RemoveCommas(u) by {
        DecGroupedRemove(s, k - 1);
      }
      assert RemoveCommas(chunk) == RemoveCommas([c]) by {
        ChunkRemove(chunk, c);
      }
      RemoveCommasAppend(chunk, rest);
      assert s[|s| - k..] == [c] + u;
      RemoveCommasAppend([c], u);
    }
  }

  /** Removing the commas gives back the input with its own commas removed. */
  lemma DecCommasRemove(s: string)
    ensures RemoveCommas(DecCommas(s)) == RemoveCommas(s)
  {
    DecGroupedRemove(s, |s|);
    assert s[0..] == s;
  }

  lemma {:induction false} DecGroupedNoPoint(s: string, k: nat)
    requires k <= |s| && '.' !in s
    ensures DecGrouped(s, k) == IntGrouped(s, k)
  {
    if k > 0 {
      assert s[|s| - k] in s;
      DecGroupedNoPoint(s, k - 1);
    }
  }

  /** On text without a '.', the two versions agree. */
  lemma DecCommasNoPoint(s: string)
    requires '.' !in s
    ensures DecCommas(s) == IntCommas(s)
  {
    DecGroupedNoPoint(s, |s|);
  }

  /** `s` with every comma that stands right before a '.' dropped. */
  function DropCommaBeforePoint(s: string): (r: string)
    ensures |r| <= |s|
  {
    if |s| >= 2 && s[0] == ',' && s[1] == '.' then DropCommaBeforePoint(s[1..])
    else if s == [] then []
    else [s[0]] + DropCommaBeforePoint(s[1..])
  }

  lemma {:induction false} DecGroupedDrops(s: string, k: nat)
    requires k <= |s| && ',' !in s
    ensures DecGrouped(s, k) == DropCommaBeforePoint(IntGrouped(s, k))
  {
    if k > 0 {
      DecGroupedDrops(s, k - 1);
      assert s[|s| - k] in s;
      DropChunk(s, k, IntGrouped(s, k - 1));
    }
  }

  /** Dropping the commas before a '.' turns an integer chunk into the
      decimal chunk of the same step. */
  lemma DropChunk(s: string, k: nat, rest: string)
    requires 0 < k <= |s| && s[|s| - k] != ','
    ensures DropCommaBeforePoint(IntChunk(s, k) + rest) == DecChunk(s, k) + DropCommaBeforePoint(rest)
  {
    var c := s[|s| - k];
    if k % 3 == 0 && k != |s| {
      DropCommaCons(c, rest);
      assert [',', c] + rest == [','] + ([c] + rest);
    } else {
      DropCons(c, rest);
    }
  }

  /** A character other than ',' is kept. */
  lemma DropCons(c: char, rest: string)
    requires c != ','
    ensures DropCommaBeforePoint([c] + rest) == [c] + DropCommaBeforePoint(rest)
  {
    assert ([c] + rest)[1..] == rest;
  }

  /** A comma is dropped exactly when a '.' follows it. */
  lemma DropCommaCons(c: char, rest: string)
    requires c != ','
    ensures DropCommaBeforePoint([',', c] + rest)
         == (if c == '.' then [] else [',']) + ([c] + DropCommaBeforePoint(rest))
  {
    assert ([',', c] + rest)[1..] == [c] + rest;
    DropCons(c, rest);
  }

  /** The decimal version is the integer version with every comma that the
      integer version puts right before a '.' taken out. */
  lemma DecCommasDropsBeforePoint(s: string)
    requires ',' !in s
    ensures DecCommas(s) == DropCommaBeforePoint(IntCommas(s))
  {
    DecGroupedDrops(s, |s|);
  }

  lemma {:induction false} DecGroupedNoCommaPoint(s: string, k: nat)
    requires k <= |s| && ',' !in s
    ensures forall j :: 0 <= j < |DecGrouped(s, k)| - 1 && DecGrouped(s, k)[j] == ','
              ==> DecGrouped(s, k)[j + 1] != '.'
  {
    if k > 0 {
      DecGroupedNoCommaPoint(s, k - 1);
      var c, rest := s[|s| - k], DecGrouped(s, k - 1);
      assert c in s;
      var r := DecGrouped(s, k);
      var ch := DecChunk(s, k);
      assert r == ch + rest;
      forall j | 0 <= j < |r| - 1 && r[j] == ','
        ensures r[j + 1] != '.'
      {
        if j >= |ch| {
          assert r[j] == rest[j - |ch|];
          assert r[j + 1] == rest[j + 1 - |ch|];
        }
      }
    }
  }

  /** No '.' ever has a comma right in front of it (on comma-free input). */
  lemma DecCommasNoCommaBeforePoint(s: string)
    requires ',' !in s
    ensures forall j :: 0 <= j < |DecCommas(s)| - 1 && DecCommas(s)[j] == ','
              ==> DecCommas(s)[j + 1] != '.'
  {
    DecGroupedNoCommaPoint(s, |s|);
  }

  /** The output starts with the input's first character. */
  lemma DecCommasFirst(s: string)
    requires |s| >= 1
    ensures |DecCommas(s)| >= 1 && DecCommas(s)[0] == s[0]
  {
    assert DecCommas(s) == DecChunk(s, |s|) + DecGrouped(s, |s| - 1);
  }

  // ---------------------------------------------------------------------
  // The cases recorded next to the source
  // ---------------------------------------------------------------------

  lemma GroupThreesAppendGroup(s: string, t: string)
    requires |s| >= 1 && |t| == 3
    ensures GroupThrees(s + t) == GroupThrees(s) + [','] + t
  {
    assert (s + t)[..|s|] == s && (s + t)[|s|..] == t;
  }

  /** `str(1000000000000)`, digit by digit. */
  lemma NumeralTrillion()
    ensures PyStr(1000000000000) == "1000000000000"
  {
    assert Str(1) == "1";
    assert Str(10) == "10";
    assert Str(100) == "100";
    assert Str(1000) == "1000";
    assert Str(10000) == "10000";
    assert Str(100000) == "100000";
    assert Str(1000000) == "1000000";
    assert Str(10000000) == "10000000";
    assert Str(100000000) == "100000000";
    assert Str(1000000000) == "1000000000";
    assert Str(10000000000) == "10000000000";
    assert Str(100000000000) == "100000000000";
    assert Str(1000000000000) == "1000000000000";
  }

  /** The first groups of `1000000`, proved apart to keep each proof small. */
  lemma GroupingTrillionFront()
    ensures GroupThrees("1000000") == "1,000,000"
  {
    GroupThreesAppendGroup("1", "000");
    assert "1" + "000" == "1000";
    GroupThreesAppendGroup("1000", "000");
    assert "1000" + "000" == "1000000";
  }

  /** The grouping of `1000000000000`, one group of three at a time. */
  lemma GroupingTrillion()
    ensures GroupThrees("1000000000000") == "1,000,000,000,000"
  {
    GroupingTrillionFront();
    GroupThreesAppendGroup("1000000", "000");
    assert "1000000" + "000" == "1000000000";
    GroupThreesAppendGroup("1000000000", "000");
    assert "1000000000" + "000" == "1000000000000";
  }

  /** `add_commas_to_number(1000000000000)` returns `1,000,000,000,000`. */
  lemma IntExampleTrillion()
    ensures IntCommas(PyStr(1000000000000)) == "1,000,000,000,000"
  {
    NumeralTrillion();
    GroupingTrillion();
    IntCommasIsGroupThrees(PyStr(1000000000000));
  }

  /** `str(50000000000)`, digit by digit. */
  lemma NumeralFiftyBillion()
    ensures PyStr(50000000000) == "50000000000"
  {
    assert Str(5) == "5";
    assert Str(50) == "50";
    assert Str(500) == "500";
    assert Str(5000) == "5000";
    assert Str(50000) == "50000";
    assert Str(500000) == "500000";
    assert Str(5000000) == "5000000";
    assert Str(50000000) == "50000000";
    assert Str(500000000) == "500000000";
    assert Str(5000000000) == "5000000000";
    assert Str(50000000000) == "50000000000";
  }

  /** The grouping of `50000000000`, one group of three at a time. */
  lemma GroupingFiftyBillion()
    ensures GroupThrees("50000000000") == "50,000,000,000"
  {
    GroupThreesAppendGroup("50", "000");
    assert "50" + "000" == "50000";
    GroupThreesAppendGroup("50000", "000");
    assert "50000" + "000" == "50000000";
    GroupThreesAppendGroup("50000000", "000");
    assert "50000000" + "000" == "50000000000";
  }

  /** `add_commas_to_number(50000000000)` returns `50,000,000,000`. */
  lemma IntExampleFiftyBillion()
    ensures IntCommas(PyStr(50000000000)) == "50,000,000,000"
  {
    NumeralFiftyBillion();
    GroupingFiftyBillion();
    IntCommasIsGroupThrees(PyStr(50000000000));
  }

  /** `str(150000000000000)`, digit by digit. */
  lemma NumeralHundredFiftyTrillion()
    ensures PyStr(150000000000000) == "150000000000000"
  {
    assert Str(1) == "1";
    assert Str(15) == "15";
    assert Str(150) == "150";
    assert Str(1500) == "1500";
    assert Str(15000) == "15000";
    assert Str(150000) == "150000";
    assert Str(1500000) == "1500000";
    assert Str(15000000) == "15000000";
    assert Str(150000000) == "150000000";
    assert Str(1500000000) == "1500000000";
    assert Str(15000000000) == "15000000000";
    assert Str(150000000000) == "150000000000";
    assert Str(1500000000000) == "1500000000000";
    assert Str(15000000000000) == "15000000000000";
    assert Str(150000000000000) == "150000000000000";
  }

  /** The first groups of `150000000`, proved apart to keep each proof small. */
  lemma GroupingHundredFiftyTrillionFront()
    ensures GroupThrees("150000000") == "150,000,000"
  {
    GroupThreesAppendGroup("150", "000");
    assert "150" + "000" == "150000";
    GroupThreesAppendGroup("150000", "000");
    assert "150000" + "000" == "150000000";
  }

  /** The grouping of `150000000000000`, one group of three at a time. */
  lemma GroupingHundredFiftyTrillion()
    ensures GroupThrees("150000000000000") == "150,000,000,000,000"
  {
    GroupingHundredFiftyTrillionFront();
    GroupThreesAppendGroup("150000000", "000");
    assert "150000000" + "000" == "150000000000";
    GroupThreesAppendGroup("150000000000", "000");
    assert "150000000000" + "000" == "150000000000000";
  }

  /** `add_commas_to_number(150000000000000)` returns `150,000,000,000,000`. */
  lemma IntExampleHundredFiftyTrillion()
    ensures IntCommas(PyStr(150000000000000)) == "150,000,000,000,000"
  {
    NumeralHundredFiftyTrillion();
    GroupingHundredFiftyTrillion();
    IntCommasIsGroupThrees(PyStr(150000000000000));
  }

  /** `str(-100000)`, digit by digit. */
  lemma NumeralNegative()
    ensures PyStr(-100000) == "-100000"
  {
    assert Str(1) == "1";
    assert Str(10) == "10";
    assert Str(100) == "100";
    assert Str(1000) == "1000";
    assert Str(10000) == "10000";
    assert Str(100000) == "100000";
  }

  /** The grouping of `-100000`, one group of three at a time. */
  lemma GroupingNegative()
    ensures GroupThrees("-100000") == "-,100,000"
  {
    GroupThreesAppendGroup("-", "100");
    assert "-" + "100" == "-100";
    GroupThreesAppendGroup("-100", "000");
    assert "-100" + "000" == "-100000";
  }

  /** `add_commas_to_number(-100000)` returns `-,100,000`: the sign is
      counted as a character, so a comma follows it when the digit count is
      a multiple of three. */
  lemma IntExampleNegative()
    ensures IntCommas(PyStr(-100000)) == "-,100,000"
  {
    NumeralNegative();
    GroupingNegative();
    IntCommasIsGroupThrees(PyStr(-100000));
  }

  /** `12500.75` is formatted as `12,500.75`: the fractional part is two
      digits long, so the groups of the integer part happen to line up. */
  lemma DecExampleTwoDecimals()
    ensures DecCommas("12500.75") == "12,500.75"
  {
    var s := "12500.75";
    assert DecGrouped(s, 1) == "5";
    assert DecGrouped(s, 2) == "75";
    assert DecGrouped(s, 3) == ".75";
    assert DecGrouped(s, 4) == "0.75";
    assert DecGrouped(s, 5) == "00.75";
    assert DecGrouped(s, 6) == ",500.75";
    assert DecGrouped(s, 7) == "2,500.75";
  }

  /** `100.5` is formatted as `10,0.5`: positions count from the right end
      of the whole text, point included. */
  lemma DecExampleOneDecimal()
    ensures DecCommas("100.5") == "10,0.5"
  {
    var s := "100.5";
    assert DecGrouped(s, 1) == "5";
    assert DecGrouped(s, 2) == ".5";
    assert DecGrouped(s, 3) == ",0.5";
    assert DecGrouped(s, 4) == "0,0.5";
  }

  /** `1.234` is formatted as `1.,234`: a comma may follow the point. */
  lemma DecExampleThreeDecimals()
    ensures DecCommas("1.234") == "1.,234"
  {
    var s := "1.234";
    assert DecGrouped(s, 1) == "4";
    assert DecGrouped(s, 2) == "34";
    assert DecGrouped(s, 3) == ",234";
    assert DecGrouped(s, 4) == ".,234";
  }
}
