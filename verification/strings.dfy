/** The JavaScript (and a little Python) string operations the album code
    relies on, over `string == seq<char>`: `split` on one character, `join`,
    `includes`, first-occurrence `replace`, `trim`, `parseInt` and number
    formatting. */
module Strings {
  import opened Wrappers

  // ---------------------------------------------------------------------------
  // Prefixes, suffixes and substring search
  // ---------------------------------------------------------------------------

  predicate StartsWith(s: string, prefix: string) {
    |prefix| <= |s| && s[..|prefix|] == prefix
  }

  predicate EndsWith(s: string, suffix: string) {
    |suffix| <= |s| && s[|s| - |suffix|..] == suffix
  }

  /** `pat` occurs in `s` starting at position `i`. */
  predicate OccursAt(s: string, pat: string, i: nat) {
    i + |pat| <= |s| && s[i..i + |pat|] == pat
  }

  /** `s.includes(sub)`: some position of `s` starts an occurrence of `sub`. */
  predicate Contains(s: string, sub: string) {
    exists i: nat :: i <= |s| && OccursAt(s, sub, i)
  }

  lemma OccursShift(s: string, pat: string, j: nat)
    requires |s| > 0
    ensures OccursAt(s, pat, j + 1) <==> OccursAt(s[1..], pat, j)
  {
    if j + 1 + |pat| <= |s| {
      assert s[j + 1..j + 1 + |pat|] == s[1..][j..j + |pat|];
    }
  }

  /** Index of the first occurrence of `pat` in `s`, if any (`indexOf`). */
  function IndexOf(s: string, pat: string): (r: Option<nat>)
    ensures r.Some? ==> OccursAt(s, pat, r.value)
    ensures r.Some? ==> forall j: nat :: j < r.value ==> !OccursAt(s, pat, j)
    ensures r.None? <==> !Contains(s, pat)
    decreases |s|
  {
    if |pat| > |s| then None
    else if s[..|pat|] == pat then
      assert OccursAt(s, pat, 0);
      Some(0)
    else
      var rest := IndexOf(s[1..], pat);
      if rest.None? then
        assert !Contains(s, pat) by {
          forall i: nat | OccursAt(s, pat, i) ensures false {
            if i > 0 { OccursShift(s, pat, i - 1); }
          }
        }
        None
      else
        forall j: nat | j < rest.value + 1 ensures !OccursAt(s, pat, j) {
          if j > 0 { OccursShift(s, pat, j - 1); }
        }
        OccursShift(s, pat, rest.value);
        Some(rest.value + 1)
  }

  /** `s.replace(pat, rep)` with a string pattern: only the first occurrence
      is replaced; without an occurrence the string is returned unchanged. */
  function ReplaceFirst(s: string, pat: string, rep: string): (r: string)
    ensures !Contains(s, pat) ==> r == s
    ensures Contains(s, pat) ==>
      exists i: nat :: OccursAt(s, pat, i)
        && (forall j: nat :: j < i ==> !OccursAt(s, pat, j))
        && r == s[..i] + rep + s[i + |pat|..]
  {
    match IndexOf(s, pat)
    case None => s
    case Some(i) => s[..i] + rep + s[i + |pat|..]
  }

  /** Every occurrence of the character `a` replaced by `b` (`replace(/a/g, b)`). */
  function ReplaceChar(s: string, a: char, b: char): (r: string)
    ensures |r| == |s|
    ensures forall i :: 0 <= i < |s| ==> r[i] == if s[i] == a then b else s[i]
  {
    seq(|s|, i requires 0 <= i < |s| => if s[i] == a then b else s[i])
  }

  /** Python's `s.replace(a, b, n)` for single characters: the first `n`
      occurrences of `a` become `b`. */
  function ReplaceFirstN(s: string, a: char, b: char, n: nat): (r: string)
    ensures |r| == |s|
    decreases |s|
  {
    if |s| == 0 then ""
    else if s[0] == a && n > 0 then [b] + ReplaceFirstN(s[1..], a, b, n - 1)
    else [s[0]] + ReplaceFirstN(s[1..], a, b, n)
  }

  /** Number of positions of `s` holding `a`. */
  function CountChar(s: string, a: char): nat {
    if |s| == 0 then 0 else (if s[0] == a then 1 else 0) + CountChar(s[1..], a)
  }

  /** `ReplaceFirstN` replaces exactly `min(n, count)` characters, and it
      replaces the leftmost ones: an occurrence is replaced iff fewer than `n`
      occurrences precede it. */
  lemma {:induction false} ReplaceFirstNExact(s: string, a: char, b: char, n: nat)
    requires a != b
    ensures forall i :: 0 <= i < |s| && s[i] == a ==>
      (ReplaceFirstN(s, a, b, n)[i] == b <==> CountChar(s[..i], a) < n)
    decreases |s|
  {
    if |s| > 0 {
      var r := ReplaceFirstN(s, a, b, n);
      var n' := if s[0] == a && n > 0 then n - 1 else n;
      ReplaceFirstNExact(s[1..], a, b, n');
      forall i | 0 <= i < |s| && s[i] == a
        ensures r[i] == b <==> CountChar(s[..i], a) < n
      {
        if i > 0 {
          assert s[..i][1..] == s[1..][..i - 1];
          assert r[i] == ReplaceFirstN(s[1..], a, b, n')[i - 1];
          assert CountChar(s[..i], a) == (if s[0] == a then 1 else 0) + CountChar(s[1..][..i - 1], a);
        } else {
          assert s[..0] == "";
        }
      }
    }
  }

  lemma {:induction false} CountCharAppend(s: string, t: string, a: char)
    ensures CountChar(s + t, a) == CountChar(s, a) + CountChar(t, a)
    decreases |s|
  {
    if |s| > 0 {
      assert (s + t)[1..] == s[1..] + t;
      CountCharAppend(s[1..], t, a);
    } else {
      assert s + t == t;
    }
  }

  /** One step of `ReplaceFirstN`, for a string given as head and tail. */
  lemma ReplaceFirstNStep(c: char, rest: string, a: char, b: char, n: nat)
    ensures ReplaceFirstN([c] + rest, a, b, n)
      == [if c == a && n > 0 then b else c] + ReplaceFirstN(rest, a, b, if c == a && n > 0 then n - 1 else n)
  {
    assert ([c] + rest)[1..] == rest;
  }

  /** A character other than `a` in front of a passed-over prefix is passed
      over too. */
  lemma KeepStep(c: char, s: string, t: string, a: char, b: char, n: nat)
    requires c != a
    requires ReplaceFirstN(s + t, a, b, n) == s + ReplaceFirstN(t, a, b, n)
    ensures ReplaceFirstN([c] + s + t, a, b, n) == [c] + s + ReplaceFirstN(t, a, b, n)
  {
    assert [c] + s + t == [c] + (s + t);
    ReplaceFirstNStep(c, s + t, a, b, n);
  }

  /** A prefix without `a` is passed over: the replacements all go to the
      rest. */
  lemma {:induction false} ReplaceFirstNSkip(s: string, t: string, a: char, b: char, n: nat)
    requires a !in s
    ensures ReplaceFirstN(s + t, a, b, n) == s + ReplaceFirstN(t, a, b, n)
    decreases |s|
  {
    if |s| == 0 {
      assert s + t == t;
    } else {
      assert s[0] != a && a !in s[1..] by {
        assert forall x :: x in s[1..] ==> x in s;
      }
      ReplaceFirstNSkip(s[1..], t, a, b, n);
      KeepStep(s[0], s[1..], t, a, b, n);
      assert [s[0]] + s[1..] == s;
    }
  }

  /** A rest kept after a prefix stays kept after one more character. */
  lemma ExhaustStep(c: char, s: string, t: string, a: char, b: char, n: nat)
    requires var n' := if c == a && n > 0 then n - 1 else n;
      ReplaceFirstN(s + t, a, b, n') == ReplaceFirstN(s, a, b, n') + t
    ensures ReplaceFirstN([c] + s + t, a, b, n) == ReplaceFirstN([c] + s, a, b, n) + t
  {
    var n' := if c == a && n > 0 then n - 1 else n;
    var c0 := if c == a && n > 0 then b else c;
    var head := ReplaceFirstN(s, a, b, n');
    calc {
      ReplaceFirstN([c] + s + t, a, b, n);
      { assert [c] + s + t == [c] + (s + t); ReplaceFirstNStep(c, s + t, a, b, n); }
      [c0] + (head + t);
      { ReplaceFirstNStep(c, s, a, b, n); }
      ReplaceFirstN([c] + s, a, b, n) + t;
    }
  }

  /** A prefix holding at least `n` occurrences uses up every replacement:
      the rest is kept. */
  lemma {:induction false} ReplaceFirstNExhaust(s: string, t: string, a: char, b: char, n: nat)
    requires n <= CountChar(s, a)
    ensures ReplaceFirstN(s + t, a, b, n) == ReplaceFirstN(s, a, b, n) + t
    decreases |s|
  {
    if n == 0 {
      ReplaceFirstNNone(s + t, a, b, 0);
      ReplaceFirstNNone(s, a, b, 0);
    } else {
      ReplaceFirstNExhaust(s[1..], t, a, b, if s[0] == a then n - 1 else n);
      ExhaustStep(s[0], s[1..], t, a, b, n);
      assert [s[0]] + s[1..] == s;
    }
  }

  /** With no replacements left, or nothing to replace, the string is kept. */
  lemma {:induction false} ReplaceFirstNNone(s: string, a: char, b: char, n: nat)
    requires n == 0 || a !in s
    ensures ReplaceFirstN(s, a, b, n) == s
    decreases |s|
  {
    if |s| > 0 {
      ReplaceFirstNNone(s[1..], a, b, n);
      assert [s[0]] + s[1..] == s;
    }
  }

  /** With enough replacements, `ReplaceFirstN` replaces every occurrence. */
  lemma {:induction false} ReplaceFirstNAll(s: string, a: char, b: char, n: nat)
    requires CountChar(s, a) <= n
    ensures ReplaceFirstN(s, a, b, n) == ReplaceChar(s, a, b)
    decreases |s|
  {
    if |s| > 0 {
      var n' := if s[0] == a && n > 0 then n - 1 else n;
      ReplaceFirstNAll(s[1..], a, b, n');
      assert ReplaceChar(s, a, b) == [if s[0] == a then b else s[0]] + ReplaceChar(s[1..], a, b);
    }
  }

  // ---------------------------------------------------------------------------
  // split / join
  // ---------------------------------------------------------------------------

  /** `s.split(c)` for a one-character separator: never empty, and no part
      contains the separator. */
  function Split(s: string, c: char): (parts: seq<string>)
    ensures |parts| >= 1
    ensures forall i :: 0 <= i < |parts| ==> c !in parts[i]
    decreases |s|
  {
    if |s| == 0 then [""]
    else
      var rest := Split(s[1..], c);
      if s[0] == c then [""] + rest
      else [[s[0]] + rest[0]] + rest[1..]
  }

  /** `parts.join(sep)`. */
  function Join(parts: seq<string>, sep: string): string {
    if |parts| == 0 then ""
    else if |parts| == 1 then parts[0]
    else parts[0] + sep + Join(parts[1..], sep)
  }

  /** Splitting a string that does not contain the separator gives that string. */
  lemma {:induction false} SplitNoSeparator(s: string, c: char)
    requires c !in s
    ensures Split(s, c) == [s]
    decreases |s|
  {
    if |s| > 0 {
      SplitNoSeparator(s[1..], c);
      assert [s[0]] + s[1..] == s;
    }
  }

  /** Splitting `a + [c] + b`, where `a` is separator-free, yields `a` followed
      by the parts of `b`. */
  lemma {:induction false} SplitAtFirst(a: string, c: char, b: string)
    requires c !in a
    ensures Split(a + [c] + b, c) == [a] + Split(b, c)
    decreases |a|
  {
    var s := a + [c] + b;
    if |a| == 0 {
      assert s[1..] == b;
    } else {
      assert s[1..] == a[1..] + [c] + b;
      SplitAtFirst(a[1..], c, b);
      assert [a[0]] + a[1..] == a;
    }
  }

  /** `Join` over a concatenation splits into the two joins. */
  lemma {:induction false} JoinCons(p: string, rest: seq<string>, sep: string)
    requires |rest| >= 1
    ensures Join([p] + rest, sep) == p + sep + Join(rest, sep)
  {
    assert ([p] + rest)[1..] == rest;
  }

  /** Round trip: joining the parts of a split with the separator restores the
      string. */
  lemma {:induction false} JoinSplit(s: string, c: char)
    ensures Join(Split(s, c), [c]) == s
    decreases |s|
  {
    if |s| > 0 {
      JoinSplit(s[1..], c);
      var rest := Split(s[1..], c);
      if s[0] == c {
        JoinCons("", rest, [c]);
        assert [c] + s[1..] == s;
      } else {
        if |rest| == 1 {
          assert [s[0]] + s[1..] == s;
        } else {
          JoinCons(rest[0], rest[1..], [c]);
          assert [rest[0]] + rest[1..] == rest;
          JoinCons([s[0]] + rest[0], rest[1..], [c]);
          assert [[s[0]] + rest[0]] + rest[1..] == [[s[0]] + rest[0]] + rest[1..];
          assert [s[0]] + s[1..] == s;
        }
      }
    }
  }

  /** Round trip the other way: splitting a join of separator-free parts
      restores the parts. */
  lemma {:induction false} SplitJoin(parts: seq<string>, c: char)
    requires |parts| >= 1
    requires forall i :: 0 <= i < |parts| ==> c !in parts[i]
    ensures Split(Join(parts, [c]), c) == parts
    decreases |parts|
  {
    if |parts| == 1 {
      SplitNoSeparator(parts[0], c);
    } else {
      SplitJoin(parts[1..], c);
      JoinCons(parts[0], parts[1..], [c]);
      SplitAtFirst(parts[0], c, Join(parts[1..], [c]));
      assert [parts[0]] + parts[1..] == parts;
    }
  }

  /** A split has more than one part exactly when the separator occurs. */
  lemma {:induction false} SplitSeveral(s: string, c: char)
    ensures |Split(s, c)| >= 2 <==> c in s
    decreases |s|
  {
    if |s| > 0 {
      SplitSeveral(s[1..], c);
      assert c in s <==> s[0] == c || c in s[1..] by {
        assert s == [s[0]] + s[1..];
      }
    }
  }

  /** The first part of a split is the text before the first separator, and
      the remaining parts joined back are the text after it. */
  lemma SplitHeadTail(s: string, c: char, i: nat)
    requires i < |s| && s[i] == c && c !in s[..i]
    ensures Split(s, c)[0] == s[..i]
    ensures Join(Split(s, c)[1..], [c]) == s[i + 1..]
  {
    assert s == s[..i] + [c] + s[i + 1..];
    SplitAtFirst(s[..i], c, s[i + 1..]);
    JoinSplit(s[i + 1..], c);
  }

  /** Index of the first occurrence of character `c`, if any. */
  function FirstIndex(s: string, c: char): (r: Option<nat>)
    ensures r.Some? ==> r.value < |s| && s[r.value] == c && c !in s[..r.value]
    ensures r.None? <==> c !in s
    decreases |s|
  {
    if |s| == 0 then None
    else if s[0] == c then Some(0)
    else
      var rest := FirstIndex(s[1..], c);
      if rest.None? then
        assert s == [s[0]] + s[1..];
        None
      else
        assert s[..rest.value + 1] == [s[0]] + s[1..][..rest.value];
        Some(rest.value + 1)
  }

  /** Index of the last occurrence of character `c`, if any. */
  function LastIndex(s: string, c: char): (r: Option<nat>)
    ensures r.Some? ==> r.value < |s| && s[r.value] == c && c !in s[r.value + 1..]
    ensures r.None? <==> c !in s
    decreases |s|
  {
    if |s| == 0 then None
    else if s[|s| - 1] == c then Some(|s| - 1)
    else
      var rest := LastIndex(s[..|s| - 1], c);
      if rest.None? then
        assert s == s[..|s| - 1] + [s[|s| - 1]];
        None
      else
        assert s[rest.value + 1..] == s[..|s| - 1][rest.value + 1..] + [s[|s| - 1]];
        Some(rest.value)
  }

  // ---------------------------------------------------------------------------
  // trim, case
  // ---------------------------------------------------------------------------

  /** ECMAScript WhiteSpace and LineTerminator code points (the set `trim`
      and `parseInt` skip): TAB, LF, VT, FF, CR, SPACE, NBSP, the other
      space separators, LS, PS and the byte-order mark. */
  predicate IsJsSpace(ch: char) {
    ch == '\t' || ch == '\n' || ch == '\U{000B}' || ch == '\U{000C}' || ch == '\r'
    || ch == ' ' || ch == '\U{00A0}' || ch == '\U{1680}'
    || ('\U{2000}' <= ch <= '\U{200A}')
    || ch == '\U{2028}' || ch == '\U{2029}' || ch == '\U{202F}' || ch == '\U{205F}'
    || ch == '\U{3000}' || ch == '\U{FEFF}'
  }

  function TrimStart(s: string): (r: string)
    ensures |r| <= |s| && r == s[|s| - |r|..]
    ensures |r| > 0 ==> !IsJsSpace(r[0])
    ensures forall i :: 0 <= i < |s| - |r| ==> IsJsSpace(s[i])
    decreases |s|
  {
    if |s| > 0 && IsJsSpace(s[0]) then TrimStart(s[1..]) else s
  }

  function TrimEnd(s: string): (r: string)
    ensures |r| <= |s| && r == s[..|r|]
    ensures |r| > 0 ==> !IsJsSpace(r[|r| - 1])
    ensures forall i :: |r| <= i < |s| ==> IsJsSpace(s[i])
    decreases |s|
  {
    if |s| > 0 && IsJsSpace(s[|s| - 1]) then TrimEnd(s[..|s| - 1]) else s
  }

  /** `s.trim()`: the longest infix of `s` that neither starts nor ends with
      white space, found by dropping white space from both ends. */
  function Trim(s: string): string {
    TrimEnd(TrimStart(s))
  }

  /** `trim` only removes characters: one absent from `s` is absent from
      the result. */
  lemma TrimKeepsAbsent(s: string, c: char)
    requires c !in s
    ensures c !in Trim(s)
  {
    var t := TrimStart(s);
    assert t == s[|s| - |t|..];
    assert c !in t;
    var r := TrimEnd(t);
    assert r == t[..|r|];
  }

  /** Neither starts nor ends with white space. */
  predicate IsTrimmed(s: string) {
    s == "" || (!IsJsSpace(s[0]) && !IsJsSpace(s[|s| - 1]))
  }

  /** Trimming leaves a trimmed string as it is. */
  lemma TrimTrimmed(s: string)
    requires IsTrimmed(s)
    ensures Trim(s) == s
  {
    assert TrimStart(s) == s;
  }

  /** Lower-casing restricted to ASCII letters. */
  function ToLower(s: string): (r: string)
    ensures |r| == |s|
    ensures forall i :: 0 <= i < |s| ==> r[i] == if 'A' <= s[i] <= 'Z' then (s[i] as int + 32) as char else s[i]
  {
    seq(|s|, i requires 0 <= i < |s| => if 'A' <= s[i] <= 'Z' then (s[i] as int + 32) as char else s[i])
  }

  // ---------------------------------------------------------------------------
  // Numbers as text
  // ---------------------------------------------------------------------------

  predicate IsDigit(ch: char) {
    '0' <= ch <= '9'
  }

  function DigitChar(d: nat): char
    requires d < 10
  {
    ('0' as int + d) as char
  }

  function DigitValue(ch: char): nat
    requires IsDigit(ch)
  {
    ch as int - '0' as int
  }

  /** Decimal digits of a natural number, without leading zeros. */
  function NatToString(n: nat): (r: string)
    ensures |r| >= 1
    ensures forall i :: 0 <= i < |r| ==> IsDigit(r[i])
    ensures n > 0 ==> r[0] != '0'
  {
    if n < 10 then [DigitChar(n)] else NatToString(n / 10) + [DigitChar(n % 10)]
  }

  /** Value of a string of decimal digits. */
  function DigitsValue(s: string): nat
    requires forall i :: 0 <= i < |s| ==> IsDigit(s[i])
  {
    if |s| == 0 then 0 else DigitsValue(s[..|s| - 1]) * 10 + DigitValue(s[|s| - 1])
  }

  /** Printing a number in decimal and reading the digits back gives the
      number again, so `NatToString` is injective. */
  lemma {:induction false} NatToStringValue(n: nat)
    ensures DigitsValue(NatToString(n)) == n
  {
    if n >= 10 {
      NatToStringValue(n / 10);
      var r := NatToString(n);
      assert r[..|r| - 1] == NatToString(n / 10);
    }
  }

  lemma NatToStringInjective(m: nat, n: nat)
    requires NatToString(m) == NatToString(n)
    ensures m == n
  {
    NatToStringValue(m);
    NatToStringValue(n);
  }

  /** `String(n)` for an integer. */
  function IntToString(n: int): (r: string)
    ensures |r| >= 1
    ensures n >= 0 ==> r == NatToString(n)
    ensures n < 0 ==> r == "-" + NatToString(-n)
  {
    if n >= 0 then NatToString(n) else "-" + NatToString(-n)
  }

  predicate IsHexDigit(ch: char) {
    IsDigit(ch) || ('a' <= ch <= 'f') || ('A' <= ch <= 'F')
  }

  function HexValue(ch: char): nat
    requires IsHexDigit(ch)
  {
    if IsDigit(ch) then DigitValue(ch)
    else if 'a' <= ch <= 'f' then ch as int - 'a' as int + 10
    else ch as int - 'A' as int + 10
  }

  /** Length of the longest prefix of `s` made of digits of the given radix. */
  function DigitRun(s: string, hex: bool): (n: nat)
    ensures n <= |s|
    ensures forall i :: 0 <= i < n ==> if hex then IsHexDigit(s[i]) else IsDigit(s[i])
    ensures n < |s| ==> !(if hex then IsHexDigit(s[n]) else IsDigit(s[n]))
    decreases |s|
  {
    if |s| > 0 && (if hex then IsHexDigit(s[0]) else IsDigit(s[0])) then 1 + DigitRun(s[1..], hex) else 0
  }

  function RunValue(s: string, hex: bool): nat
    requires forall i :: 0 <= i < |s| ==> if hex then IsHexDigit(s[i]) else IsDigit(s[i])
  {
    if |s| == 0 then 0
    else (RunValue(s[..|s| - 1], hex) * (if hex then 16 else 10)
      + (if hex then HexValue(s[|s| - 1]) else DigitValue(s[|s| - 1])))
  }

  /** `0x` or `0X` at the start selects radix 16 in `parseInt`. */
  predicate HexPrefixed(s: string) {
    |s| >= 2 && s[0] == '0' && (s[1] == 'x' || s[1] == 'X')
  }

  /** The unsigned part of `parseInt`: a `0x`/`0X` prefix selects radix 16,
      otherwise radix 10; the longest digit prefix is read, none means NaN. */
  function ParseUnsigned(s: string): (r: Option<nat>)
    ensures r.Some? && !HexPrefixed(s) ==> |s| > 0 && IsDigit(s[0])
    ensures r.Some? && HexPrefixed(s) ==> IsDigit(s[0])
  {
    var hex := HexPrefixed(s);
    var body := if hex then s[2..] else s;
    var n := DigitRun(body, hex);
    if n == 0 then None else Some(RunValue(body[..n], hex))
  }

  /** Drops one leading `+` or `-`. */
  function DropSign(t: string): string {
    if |t| > 0 && (t[0] == '-' || t[0] == '+') then t[1..] else t
  }

  /** `parseInt(s)` with no radix: leading white space is skipped, an optional
      sign is read, and `None` stands for NaN. A result always comes from a
      digit somewhere in the text. */
  function ParseInt(s: string): (r: Option<int>)
    ensures r.Some? ==> exists k :: 0 <= k < |s| && IsDigit(s[k])
  {
    var t := TrimStart(s);
    var neg := |t| > 0 && t[0] == '-';
    var body := DropSign(t);
    match ParseUnsigned(body)
    case None => None
    case Some(v) =>
      assert body[0] in s;
      var x: int := if neg then 0 - v else v;
      Some(x)
  }

  /** `parseInt` reads back what `NatToString` prints. */
  lemma ParseIntNatToString(n: nat)
    ensures ParseInt(NatToString(n)) == Some(n)
  {
    var s := NatToString(n);
    assert !IsJsSpace(s[0]);
    assert TrimStart(s) == s;
    assert DropSign(s) == s;
    assert !HexPrefixed(s) by {
      if n == 0 { assert |s| == 1; } else { assert s[0] != '0'; }
    }
    DigitRunAll(s);
    assert s[..|s|] == s;
    NatToStringValue(n);
    RunValueDecimal(s);
  }

  lemma {:induction false} DigitRunAll(s: string)
    requires forall i :: 0 <= i < |s| ==> IsDigit(s[i])
    ensures DigitRun(s, false) == |s|
    decreases |s|
  {
    if |s| > 0 {
      DigitRunAll(s[1..]);
    }
  }

  lemma {:induction false} RunValueDecimal(s: string)
    requires forall i :: 0 <= i < |s| ==> IsDigit(s[i])
    ensures RunValue(s, false) == DigitsValue(s)
    decreases |s|
  {
    if |s| > 0 {
      RunValueDecimal(s[..|s| - 1]);
    }
  }
}
