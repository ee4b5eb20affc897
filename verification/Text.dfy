/** The string operations the descriptor parser relies on, in the standard library's meaning. */
module Texts {
  import opened Wrappers
  import opened Arith

  /** Unicode White_Space. */
  predicate IsSpace(c: char) {
    var u := c as int;
    || 0x09 <= u <= 0x0d || u == 0x20 || u == 0x85 || u == 0xa0 || u == 0x1680
    || 0x2000 <= u <= 0x200a || u == 0x2028 || u == 0x2029 || u == 0x202f || u == 0x205f || u == 0x3000
  }

  function TrimStart(s: string): (t: string)
    ensures |t| <= |s| && t == s[|s| - |t|..]
    ensures t != [] ==> !IsSpace(t[0])
  {
    if s != [] && IsSpace(s[0]) then TrimStart(s[1..]) else s
  }

  function TrimEnd(s: string): (t: string)
    ensures |t| <= |s| && t == s[..|t|]
    ensures t != [] ==> !IsSpace(t[|t| - 1])
  {
    if s != [] && IsSpace(s[|s| - 1]) then TrimEnd(s[..|s| - 1]) else s
  }

  function Trim(s: string): string {
    TrimEnd(TrimStart(s))
  }

  /** `trim_matches(c)`. */
  function TrimChar(s: string, c: char): string
    decreases |s|
  {
    if s != [] && s[0] == c then TrimChar(s[1..], c)
    else if s != [] && s[|s| - 1] == c then TrimChar(s[..|s| - 1], c)
    else s
  }

  function StripPrefix(s: string, p: string): Option<string> {
    if p <= s then Some(s[|p|..]) else None
  }

  /** Length of the longest prefix without `c`. */
  function UpTo(s: string, c: char): (n: nat)
    ensures n <= |s|
    ensures n < |s| ==> s[n] == c
    ensures forall k :: 0 <= k < n ==> s[k] != c
  {
    if s == [] || s[0] == c then 0 else 1 + UpTo(s[1..], c)
  }

  /** Length of the longest prefix without whitespace. */
  function UpToSpace(s: string): (n: nat)
    ensures n <= |s|
    ensures n < |s| ==> IsSpace(s[n])
    ensures forall k :: 0 <= k < n ==> !IsSpace(s[k])
  {
    if s == [] || IsSpace(s[0]) then 0 else 1 + UpToSpace(s[1..])
  }

  function DropCr(s: string): string {
    if s != [] && s[|s| - 1] == '\r' then s[..|s| - 1] else s
  }

  /** `str::lines`: a `\r` goes only with the newline it precedes. */
  function Lines(s: string): seq<string>
    decreases |s|
  {
    var n := UpTo(s, '\n');
    if n < |s| then [DropCr(s[..n])] + Lines(s[n + 1..])
    else if s == [] then []
    else [s]
  }

  // ── integer parsing ───────────────────────────────────────────────────────

  function Digit(c: char): int {
    if '0' <= c <= '9' then c as int - '0' as int
    else if 'a' <= c <= 'f' then c as int - 'a' as int + 10
    else if 'A' <= c <= 'F' then c as int - 'A' as int + 10
    else 99
  }

  /** The value of a digit string in `radix`, or nothing on a foreign character. */
  function DigitsValue(s: string, radix: nat): Option<nat> {
    if s == [] then Some(0) else
    var d := Digit(s[|s| - 1]);
    if d >= radix then None else
    match DigitsValue(s[..|s| - 1], radix)
    case None => None
    case Some(v) => Some(v * radix + d)
  }

  /** `from_str_radix` for an unsigned type below `limit`: optional `+`, digits, no overflow. */
  function ParseUnsigned(s: string, radix: nat, limit: nat): (r: Option<nat>)
    ensures r.Some? ==> r.value < limit
  {
    var digits := if s != [] && s[0] == '+' then s[1..] else s;
    if digits == [] then None else
    match DigitsValue(digits, radix)
    case None => None
    case Some(v) => if v < limit then Some(v) else None
  }

  function ParseU64(s: string): Option<u64> {
    ParseUnsigned(s, 10, 0x1_0000_0000_0000_0000)
  }

  function ParseHex32(s: string): Option<u32> {
    ParseUnsigned(s, 16, 0x1_0000_0000)
  }

  /** `split_token`: the first whitespace-delimited word and what follows it. */
  function SplitToken(s: string): Option<(string, string)> {
    var t := TrimStart(s);
    if t == [] then None else
    var n := UpToSpace(t);
    Some((t[..n], t[n..]))
  }

  // ── what trimming and splitting do ────────────────────────────────────────

  /** Only blanks. */
  predicate Blanks(s: string) {
    forall k :: 0 <= k < |s| ==> IsSpace(s[k])
  }

  /** No blank at either end. */
  predicate Trimmed(s: string) {
    s != [] ==> !IsSpace(s[0]) && !IsSpace(s[|s| - 1])
  }

  predicate NoBlanks(s: string) {
    forall k :: 0 <= k < |s| ==> !IsSpace(s[k])
  }

  lemma {:induction false} TrimStartOf(a: string, t: string)
    requires Blanks(a) && (t != [] ==> !IsSpace(t[0]))
    ensures TrimStart(a + t) == t
  {
    if a != [] {
      assert (a + t)[1..] == a[1..] + t;
      TrimStartOf(a[1..], t);
    } else {
      assert a + t == t;
    }
  }

  lemma {:induction false} TrimEndOf(t: string, b: string)
    requires Blanks(b) && (t != [] ==> !IsSpace(t[|t| - 1]))
    ensures TrimEnd(t + b) == t
  {
    if b != [] {
      assert (t + b)[..|t + b| - 1] == t + b[..|b| - 1];
      TrimEndOf(t, b[..|b| - 1]);
    } else {
      assert t + b == t;
    }
  }

  /** Trimming removes exactly the blanks at both ends. */
  lemma TrimOf(a: string, t: string, b: string)
    requires Blanks(a) && Blanks(b) && Trimmed(t)
    ensures Trim(a + t + b) == t
  {
    hide IsSpace, TrimStart, TrimEnd;
    if t != [] {
      assert a + t + b == a + (t + b);
      TrimStartOf(a, t + b);
      TrimEndOf(t, b);
    } else {
      assert a + t + b == (a + b) + [];
      TrimStartOf(a + b, []);
      TrimEndOf([], []);
      assert [] + [] == t;
    }
  }

  /** A text without blanks at its ends is trimmed already. */
  lemma Untrimmed(s: string)
    requires Trimmed(s)
    ensures Trim(s) == s && TrimStart(s) == s
  {
  }

  /** `n` times the character `c`. */
  function Run(c: char, n: nat): string {
    seq(n, _ => c)
  }

  /**
   Matches are trimmed at both ends and nowhere else: the text is the result between two runs of
   `c`, and the result neither starts nor ends with `c`.
   */
  lemma {:induction false} TrimCharIs(s: string, c: char) returns (a: nat, b: nat)
    ensures var t := TrimChar(s, c);
            (t != [] ==> t[0] != c && t[|t| - 1] != c) && s == Run(c, a) + t + Run(c, b)
    decreases |s|
  {
    hide Run, TrimChar;
    TrimCharSteps(s, c);
    if s != [] && s[0] == c {
      a, b := TrimCharIs(s[1..], c);
      LongerRun(c, a);
      assert s == [c] + s[1..];
      a := a + 1;
    } else if s != [] && s[|s| - 1] == c {
      a, b := TrimCharIs(s[..|s| - 1], c);
      LongerRun(c, b);
      assert s == s[..|s| - 1] + [c];
      b := b + 1;
    } else {
      a, b := 0, 0;
      EmptyRun(c);
    }
  }

  lemma TrimCharSteps(s: string, c: char)
    ensures TrimChar(s, c) ==
            if s != [] && s[0] == c then TrimChar(s[1..], c)
            else if s != [] && s[|s| - 1] == c then TrimChar(s[..|s| - 1], c) else s
  {
  }

  lemma EmptyRun(c: char)
    ensures Run(c, 0) == []
  {
  }

  lemma LongerRun(c: char, n: nat)
    ensures Run(c, n + 1) == [c] + Run(c, n) == Run(c, n) + [c]
  {
  }

  /** Quoting is undone: what does not contain `c` comes back from between runs of it. */
  lemma {:induction false} TrimCharOf(a: nat, t: string, b: nat, c: char)
    requires c !in t
    ensures TrimChar(Run(c, a) + t + Run(c, b), c) == t
    decreases a + b
  {
    hide Run;
    var s := Run(c, a) + t + Run(c, b);
    EmptyRun(c);
    if a > 0 {
      LongerRun(c, a - 1);
      assert s[0] == c && s[1..] == Run(c, a - 1) + t + Run(c, b);
      TrimCharOf(a - 1, t, b, c);
    } else if b > 0 && t == [] {
      LongerRun(c, b - 1);
      assert s[0] == c && s[1..] == Run(c, b - 1) + t + Run(c, 0);
      TrimCharOf(b - 1, t, 0, c);
    } else if b > 0 {
      LongerRun(c, b - 1);
      assert s[0] == t[0] && s[|s| - 1] == c && s[..|s| - 1] == Run(c, 0) + t + Run(c, b - 1);
      TrimCharOf(0, t, b - 1, c);
    } else {
      assert s == t;
      assert t != [] ==> t[0] in t && t[|t| - 1] in t;
    }
  }

  lemma {:induction false} UpToSpaceOf(w: string, rest: string)
    requires NoBlanks(w) && (rest != [] ==> IsSpace(rest[0]))
    ensures UpToSpace(w + rest) == |w|
  {
    if w == [] {
      assert w + rest == rest;
    } else {
      assert (w + rest)[1..] == w[1..] + rest;
      UpToSpaceOf(w[1..], rest);
    }
  }

  /** The first word after any blanks, and what follows it. */
  lemma TokenOf(gap: string, w: string, rest: string)
    requires Blanks(gap) && w != [] && NoBlanks(w) && (rest != [] ==> IsSpace(rest[0]))
    ensures SplitToken(gap + w + rest) == Some((w, rest))
  {
    hide IsSpace, UpToSpace;
    assert gap + w + rest == gap + (w + rest);
    TrimStartOf(gap, w + rest);
    UpToSpaceOf(w, rest);
    assert (w + rest)[..|w|] == w && (w + rest)[|w|..] == rest;
  }

  lemma {:induction false} UpToFirst(a: string, rest: string, c: char)
    requires c !in a && rest != [] && rest[0] == c
    ensures UpTo(a + rest, c) == |a|
  {
    if a == [] {
      assert a + rest == rest;
    } else {
      assert (a + rest)[1..] == a[1..] + rest;
      UpToFirst(a[1..], rest, c);
    }
  }

  lemma {:induction false} UpToNone(s: string, c: char)
    requires c !in s
    ensures UpTo(s, c) == |s|
  {
    if s != [] {
      UpToNone(s[1..], c);
    }
  }

  // ── lines ─────────────────────────────────────────────────────────────────

  /** A line a text can hold: not empty, without a line break at its end or inside. */
  predicate IsLine(s: string) {
    s != [] && '\n' !in s && s[|s| - 1] != '\r'
  }

  /** Lines, each ended. */
  function Text(lines: seq<string>): string {
    if lines == [] then "" else lines[0] + "\n" + Text(lines[1..])
  }

  lemma FirstLine(a: string, rest: string)
    requires IsLine(a)
    ensures Lines(a + "\n" + rest) == [a] + Lines(rest)
  {
    var s := a + "\n" + rest;
    assert s == a + ("\n" + rest);
    UpToFirst(a, "\n" + rest, '\n');
    assert s[..|a|] == a && s[|a| + 1..] == rest;
  }

  /** Splitting into lines undoes joining them. */
  lemma {:induction false} LinesOfText(lines: seq<string>)
    requires forall k :: 0 <= k < |lines| ==> IsLine(lines[k])
    ensures Lines(Text(lines)) == lines
  {
    hide Lines, IsLine;
    if lines == [] {
      assert Lines("") == [] by { NoLines(); }
    } else {
      FirstLine(lines[0], Text(lines[1..]));
      LinesOfText(lines[1..]);
    }
  }

  lemma NoLines()
    ensures Lines("") == []
  {
  }

  // ── numbers ───────────────────────────────────────────────────────────────

  const DIGITS: string := "0123456789abcdef"

  /** `n` written in `radix`, with at least one digit. */
  function Numeral(n: nat, radix: nat): (s: string)
    requires 2 <= radix <= 16
    ensures s != []
    decreases n
  {
    (if n < radix then [] else Numeral(n / radix, radix)) + [DIGITS[n % radix]]
  }

  /** Nothing that ends a word, a line, a quotation or a number. */
  predicate DigitChar(c: char) {
    !IsSpace(c) && c != '+' && c != '"' && c != '\n' && c != '\r' && 0 < c as int < 0x80
  }

  lemma DigitOf(d: nat)
    requires d < 16
    ensures Digit(DIGITS[d]) == d && DigitChar(DIGITS[d])
  {
  }

  lemma OneMoreDigit(s: string, v: nat, d: nat, radix: nat)
    requires d < radix <= 16 && DigitsValue(s, radix) == Some(v)
    ensures DigitsValue(s + [DIGITS[d]], radix) == Some(v * radix + d)
  {
    hide Digit;
    DigitOf(d);
    assert (s + [DIGITS[d]])[..|s|] == s;
  }

  lemma FewerDigits(n: nat, radix: nat)
    requires 2 <= radix
    ensures n < radix ==> n % radix == n
    ensures n >= radix ==> n / radix < n && n == n / radix * radix + n % radix
  {
    DivMod(n, radix);
    if n < radix {
      DivModUnique(0, n, radix);
    } else {
      MulMono(2, radix, n / radix);
    }
  }

  lemma NumeralSteps(n: nat, radix: nat)
    requires 2 <= radix <= 16
    ensures n < radix ==> Numeral(n, radix) == [DIGITS[n]]
    ensures n >= radix ==> Numeral(n, radix) == Numeral(n / radix, radix) + [DIGITS[n % radix]]
  {
    FewerDigits(n, radix);
    if n < radix {
      assert [] + [DIGITS[n]] == [DIGITS[n]];
    }
  }

  /** Reading a numeral gives the number, leading zeros or not. */
  lemma {:induction false} NumeralValue(zeros: nat, n: nat, radix: nat)
    requires 2 <= radix <= 16
    ensures DigitsValue(Run('0', zeros) + Numeral(n, radix), radix) == Some(n)
    decreases n
  {
    hide DigitsValue, Numeral, Run;
    NumeralSteps(n, radix);
    FewerDigits(n, radix);
    if n < radix {
      ZerosValue(zeros, radix);
      OneMoreDigit(Run('0', zeros), 0, n, radix);
    } else {
      NumeralValue(zeros, n / radix, radix);
      OneMoreDigit(Run('0', zeros) + Numeral(n / radix, radix), n / radix, n % radix, radix);
      assert Run('0', zeros) + Numeral(n, radix) == Run('0', zeros) + Numeral(n / radix, radix) + [DIGITS[n % radix]];
    }
  }

  lemma {:induction false} ZerosValue(n: nat, radix: nat)
    requires 2 <= radix <= 16
    ensures DigitsValue(Run('0', n), radix) == Some(0)
  {
    if n > 0 {
      assert Run('0', n)[..n - 1] == Run('0', n - 1);
      ZerosValue(n - 1, radix);
    }
  }

  /** Anything but digits is refused. */
  lemma {:induction false} OnlyDigits(s: string, radix: nat)
    requires 2 <= radix <= 16
    ensures DigitsValue(s, radix).Some? <==> forall k :: 0 <= k < |s| ==> Digit(s[k]) < radix
  {
    hide Digit;
    if s != [] {
      OnlyDigits(s[..|s| - 1], radix);
      assert forall k :: 0 <= k < |s| ==> s[k] == if k < |s| - 1 then s[..|s| - 1][k] else s[|s| - 1];
    }
  }

  lemma {:induction false} NumeralChars(n: nat, radix: nat)
    requires 2 <= radix <= 16
    ensures forall k :: 0 <= k < |Numeral(n, radix)| ==> DigitChar(Numeral(n, radix)[k])
    decreases n
  {
    hide DigitChar, Digit, Numeral;
    FewerDigits(n, radix);
    NumeralSteps(n, radix);
    DigitOf(n % radix);
    if n >= radix {
      NumeralChars(n / radix, radix);
    }
  }

  lemma NumeralPlain(n: nat, radix: nat)
    requires 2 <= radix <= 16
    ensures NoBlanks(Numeral(n, radix)) && Numeral(n, radix)[0] != '+' && Trimmed(Numeral(n, radix))
    ensures '"' !in Numeral(n, radix) && '\n' !in Numeral(n, radix) && '\r' !in Numeral(n, radix)
    ensures forall k :: 0 <= k < |Numeral(n, radix)| ==> 0 < Numeral(n, radix)[k] as int < 0x80
  {
    hide IsSpace, Numeral;
    NumeralChars(n, radix);
  }

  /** An unsigned number reads back if it fits, with or without a plus sign and leading zeros. */
  lemma ParseNumeral(plus: bool, zeros: nat, n: nat, radix: nat, limit: nat)
    requires 2 <= radix <= 16
    ensures ParseUnsigned((if plus then "+" else "") + Run('0', zeros) + Numeral(n, radix), radix, limit) ==
            if n < limit then Some(n) else None
  {
    hide DigitsValue, Numeral;
    NumeralValue(zeros, n, radix);
    NumeralPlain(n, radix);
    var digits := Run('0', zeros) + Numeral(n, radix);
    if plus {
      assert ("+" + Run('0', zeros) + Numeral(n, radix))[1..] == digits;
    } else {
      assert "" + Run('0', zeros) + Numeral(n, radix) == digits;
      assert digits[0] != '+';
    }
  }

  /** Hexadecimal letters in capitals. */
  function Capitals(s: string): string {
    seq(|s|, k requires 0 <= k < |s| => if 'a' <= s[k] <= 'f' then (s[k] as int - 0x20) as char else s[k])
  }

  /** Digits read alike in capitals. */
  lemma {:induction false} CapitalsValue(s: string, radix: nat)
    ensures DigitsValue(Capitals(s), radix) == DigitsValue(s, radix)
  {
    if s != [] {
      assert Capitals(s)[..|s| - 1] == Capitals(s[..|s| - 1]);
      CapitalsValue(s[..|s| - 1], radix);
    }
  }
}
