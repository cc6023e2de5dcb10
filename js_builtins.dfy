/** Models of the JavaScript string and number built-ins that the spreadsheet
    core relies on: decimal formatting, `Number`, `Number.parseInt`,
    `String.prototype.split`, `toUpperCase`, `indexOf`/`replace` with a string
    pattern, and the two regular-expression character classes `[A-Z]` and `[0-9]`. */
module JsBuiltins {

  datatype Option<T> = None | Some(value: T)

  predicate IsUpper(c: char) { 'A' <= c <= 'Z' }
  predicate IsDigit(c: char) { '0' <= c <= '9' }

  predicate AllUpper(s: string) { forall i :: 0 <= i < |s| ==> IsUpper(s[i]) }
  predicate AllDigits(s: string) { forall i :: 0 <= i < |s| ==> IsDigit(s[i]) }

  /** The hexadecimal digits that `parseInt` reads after a `0x` prefix. */
  predicate IsHexDigit(c: char) { IsDigit(c) || 'a' <= c <= 'f' || 'A' <= c <= 'F' }

  predicate AllHex(s: string) { forall i :: 0 <= i < |s| ==> IsHexDigit(s[i]) }

  /** A character class: `[A-Z]` and `[0-9]` of the regular expressions, and
      the hexadecimal digits of `parseInt`. */
  datatype CharClass = Letters | Digits | HexDigits

  predicate InClass(c: char, k: CharClass) {
    match k
    case Letters => IsUpper(c)
    case Digits => IsDigit(c)
    case HexDigits => IsHexDigit(c)
  }

  // ---------------------------------------------------------------------------
  // Decimal numerals

  function DigitValue(c: char): nat
    requires IsDigit(c)
  {
    c as int - '0' as int
  }

  function DigitChar(d: nat): (c: char)
    requires d < 10
    ensures IsDigit(c) && DigitValue(c) == d
  {
    ('0' as int + d) as char
  }

  /** The value of a string of decimal digits, the empty string counting as 0. */
  function DigitsValue(s: string): nat
    requires AllDigits(s)
    decreases |s|
  {
    if s == [] then 0 else DigitsValue(s[..|s| - 1]) * 10 + DigitValue(s[|s| - 1])
  }

  /** A decimal numeral as JavaScript prints a non-negative integer: at least
      one digit and no leading zero. */
  predicate Canonical(s: string) {
    |s| >= 1 && AllDigits(s) && (|s| > 1 ==> s[0] != '0')
  }

  /** `String(n)` (or `${n}`) for a non-negative integer `n`. */
  function DecimalString(n: nat): (s: string)
    ensures Canonical(s)
    ensures DigitsValue(s) == n
    decreases n
  {
    if n < 10 then [DigitChar(n)]
    else
      var init := DecimalString(n / 10);
      var s := init + [DigitChar(n % 10)];
      assert s[..|s| - 1] == init;
      s
  }

  lemma {:induction false} LeadingDigitPositive(s: string)
    requires |s| >= 1 && AllDigits(s) && s[0] != '0'
    ensures DigitsValue(s) >= 1
    decreases |s|
  {
    if |s| > 1 {
      LeadingDigitPositive(s[..|s| - 1]);
    }
  }

  /** Printing the value of a canonical numeral gives the numeral back. */
  lemma {:induction false} DecimalStringOfValue(s: string)
    requires Canonical(s)
    ensures DecimalString(DigitsValue(s)) == s
    decreases |s|
  {
    if |s| > 1 {
      var init := s[..|s| - 1];
      var d := DigitValue(s[|s| - 1]);
      var n := DigitsValue(s);
      LeadingDigitPositive(init);
      DecimalStringOfValue(init);
      assert n == DigitsValue(init) * 10 + d;
      assert n / 10 == DigitsValue(init) && n % 10 == d;
      assert DigitChar(d) == s[|s| - 1];
      assert DecimalString(n) == DecimalString(n / 10) + [DigitChar(n % 10)];
      assert s == init + [s[|s| - 1]];
    }
  }

  lemma DecimalStringInjective(a: nat, b: nat)
    requires DecimalString(a) == DecimalString(b)
    ensures a == b
  {
    // DigitsValue inverts DecimalString by the contract of DecimalString.
  }

  // ---------------------------------------------------------------------------
  // Number(s) and Number.parseInt(s)

  /** `Number(s)` on the strings the core passes to it: a string of decimal
      digits denotes its value (the empty string denotes 0); anything else is
      NaN, here `None`. */
  function NumberValue(s: string): Option<nat> {
    if AllDigits(s) then Some(DigitsValue(s)) else None
  }

  /** The white space and line terminators that `parseInt` skips: tab,
      vertical tab, form feed, space, no-break space, the byte-order mark, the
      other space separators of Unicode, line feed, carriage return, and the
      line and paragraph separators. */
  predicate IsJsSpace(c: char) {
    c == '\t' || c == '\U{000B}' || c == '\U{000C}' || c == ' ' || c == '\U{00A0}' || c == '\U{FEFF}' ||
    c == '\U{1680}' || '\U{2000}' <= c <= '\U{200A}' || c == '\U{202F}' || c == '\U{205F}' || c == '\U{3000}' ||
    c == '\n' || c == '\r' || c == '\U{2028}' || c == '\U{2029}'
  }

  /** The text after the white space that `parseInt` skips. */
  function TrimStart(s: string): (r: string)
    ensures |r| <= |s| && r == s[|s| - |r|..]
    ensures forall m :: 0 <= m < |s| - |r| ==> IsJsSpace(s[m])
    ensures r == [] || !IsJsSpace(r[0])
    ensures AllDigits(s) ==> r == s
    decreases |s|
  {
    if s != [] && IsJsSpace(s[0]) then TrimStart(s[1..]) else s
  }

  function HexDigitValue(c: char): nat
    requires IsHexDigit(c)
  {
    if IsDigit(c) then DigitValue(c)
    else if 'a' <= c <= 'f' then c as int - 'a' as int + 10
    else c as int - 'A' as int + 10
  }

  /** The value of a string of hexadecimal digits. */
  function HexValue(s: string): nat
    requires AllHex(s)
    decreases |s|
  {
    if s == [] then 0 else HexValue(s[..|s| - 1]) * 16 + HexDigitValue(s[|s| - 1])
  }

  /** `0x` or `0X` at the front: `parseInt` without a radix then reads base 16. */
  predicate HexPrefix(u: string) {
    |u| >= 2 && u[0] == '0' && (u[1] == 'x' || u[1] == 'X')
  }

  /** The digits `parseInt` reads after the sign: the longest run of
      hexadecimal digits after a `0x` prefix, otherwise the longest run of
      decimal digits; no digit at all is NaN (`None`). */
  function ParseMagnitude(u: string): (r: Option<nat>)
    ensures AllDigits(u) && u != [] ==> r == Some(DigitsValue(u))
  {
    assert AllDigits(u) && u != [] ==> !HexPrefix(u) && RunEnd(u, 0, Digits) == |u| && u[..|u|] == u;
    if HexPrefix(u) then
      var h := u[2..RunEnd(u, 2, HexDigits)];
      if h == [] then None else Some(HexValue(h))
    else
      var d := u[..RunEnd(u, 0, Digits)];
      if d == [] then None else Some(DigitsValue(d))
  }

  /** A magnitude with its sign; NaN stays NaN. */
  function Signed(negative: bool, m: Option<nat>): Option<int> {
    match m
    case None => None
    case Some(v) =>
      var n: int := v;
      Some(if negative then -n else n)
  }

  /** The magnitude is NaN exactly when no digit of its base follows the prefix. */
  lemma ParseMagnitudeNaN(u: string)
    ensures ParseMagnitude(u).None? <==>
              if HexPrefix(u) then |u| == 2 || !IsHexDigit(u[2]) else u == [] || !IsDigit(u[0])
  {
  }

  /** `Number.parseInt(s)` without a radix: leading white space, an optional
      sign, then the magnitude. */
  function ParseInt(s: string): (r: Option<int>)
    ensures AllDigits(s) && s != [] ==> r == Some(DigitsValue(s))
    ensures AllDigits(s) && s == [] ==> r == None
  {
    var t := TrimStart(s);
    var u := if t != [] && (t[0] == '-' || t[0] == '+') then t[1..] else t;
    assert AllDigits(s) && s != [] ==> t == s && u == s;
    Signed(t != [] && t[0] == '-', ParseMagnitude(u))
  }

  lemma ParseIntDecimal(n: nat)
    ensures ParseInt(DecimalString(n)) == Some(n)
  {
  }

  /** White space in front of the number is skipped. */
  lemma ParseIntSkipsSpace(c: char, s: string)
    requires IsJsSpace(c)
    ensures ParseInt([c] + s) == ParseInt(s)
  {
    var u := [c] + s;
    assert u != [] && u[0] == c && u[1..] == s;
    assert TrimStart(u) == TrimStart(s);
  }

  /** A `-` in front of the magnitude negates it, a `+` is dropped. */
  lemma ParseIntSign(sign: char, u: string)
    requires sign == '-' || sign == '+'
    ensures ParseInt([sign] + u) == Signed(sign == '-', ParseMagnitude(u))
  {
    var s := [sign] + u;
    assert s[0] == sign && !IsJsSpace(sign);
    assert TrimStart(s) == s;
    assert s[1..] == u;
  }

  /** Decimal digits, ended by a character that is not a digit, are the number
      read, unless they are the `0` of a `0x` prefix; the text after them is ignored. */
  lemma ParseIntLeadingDigits(d: string, rest: string)
    requires AllDigits(d) && d != [] && (rest == [] || !IsDigit(rest[0]))
    requires !(d == "0" && rest != [] && (rest[0] == 'x' || rest[0] == 'X'))
    ensures ParseInt(d + rest) == Some(DigitsValue(d))
  {
    var u := d + rest;
    assert u[0] == d[0] && !IsJsSpace(d[0]) && d[0] != '-' && d[0] != '+';
    assert TrimStart(u) == u;
    assert !HexPrefix(u) by {
      if |d| >= 2 {
        assert u[1] == d[1];
      }
    }
    assert forall m :: 0 <= m < |d| ==> u[m] == d[m];
    assert rest != [] ==> u[|d|] == rest[0];
    assert RunEnd(u, 0, Digits) == |d|;
    assert u[..|d|] == d;
  }

  /** A `0x` prefix followed by hexadecimal digits, ended by a character that
      is not one, is read in base 16. */
  lemma ParseIntHex(x: char, h: string, rest: string)
    requires x == 'x' || x == 'X'
    requires AllHex(h) && h != [] && (rest == [] || !IsHexDigit(rest[0]))
    ensures ParseInt(['0', x] + h + rest) == Some(HexValue(h))
  {
    var u := ['0', x] + h + rest;
    assert u[0] == '0' && u[1] == x;
    assert TrimStart(u) == u;
    assert forall m :: 0 <= m < |h| ==> u[m + 2] == h[m];
    assert rest != [] ==> u[|h| + 2] == rest[0];
    assert RunEnd(u, 2, HexDigits) == |h| + 2;
    assert u[2..|h| + 2] == h;
  }

  /** `parseInt` stops at the first character that is not a digit. */
  lemma ParseIntTrailingText()
    ensures ParseInt("2a") == Some(2)
  {
    var d, rest := "2", "a";
    assert AllDigits(d) && DigitsValue(d) == 2 && !IsDigit(rest[0]);
    ParseIntLeadingDigits(d, rest);
    assert d + rest == "2a";
  }

  /** `parseInt` reads a minus sign. */
  lemma ParseIntNegative()
    ensures ParseInt("-1") == Some(-1)
  {
    var d := "1";
    assert AllDigits(d) && DigitsValue(d) == 1;
    ParseIntSign('-', d);
    assert ['-'] + d == "-1";
  }

  /** `parseInt` reads `0x2` in base 16. */
  lemma ParseIntHexExample()
    ensures ParseInt("0x2") == Some(2)
  {
    var h := "2";
    assert AllHex(h) && HexValue(h) == 2;
    ParseIntHex('x', h, "");
    assert ['0', 'x'] + h + "" == "0x2";
  }

  // ---------------------------------------------------------------------------
  // Runs of one character class, and the first match of `[A-Z]+` or `[0-9]+`

  /** The end of the longest run of characters of class `k` starting at `i`. */
  function RunEnd(s: string, i: nat, k: CharClass): (j: nat)
    requires i <= |s|
    ensures i <= j <= |s|
    ensures forall m :: i <= m < j ==> InClass(s[m], k)
    ensures j == |s| || !InClass(s[j], k)
    decreases |s| - i
  {
    if i < |s| && InClass(s[i], k) then RunEnd(s, i + 1, k) else i
  }

  /** The first index at or after `i` holding a character of class `k`, or `|s|`. */
  function FirstInClass(s: string, i: nat, k: CharClass): (j: nat)
    requires i <= |s|
    ensures i <= j <= |s|
    ensures forall m :: i <= m < j ==> !InClass(s[m], k)
    ensures j < |s| ==> InClass(s[j], k)
    decreases |s| - i
  {
    if i == |s| || InClass(s[i], k) then i else FirstInClass(s, i + 1, k)
  }

  /** `s.match(/[A-Z]+/)?.[0] || ""` (or `[0-9]+`): the leftmost, longest run
      of class `k`, or the empty string when there is none. */
  function FirstMatch(s: string, k: CharClass): (r: string)
    ensures forall m :: 0 <= m < |r| ==> InClass(r[m], k)
    ensures r == [] <==> forall m :: 0 <= m < |s| ==> !InClass(s[m], k)
    ensures forall i: nat :: FirstOfClass(s, i, k) ==>
              i + |r| <= |s| && r == s[i..i + |r|] && (i + |r| == |s| || !InClass(s[i + |r|], k))
  {
    var i := FirstInClass(s, 0, k);
    var j := RunEnd(s, i, k);
    FirstInClassIsFirst(s, k);
    assert i + |s[i..j]| == j;
    s[i..j]
  }

  /** Position `i` holds the first character of class `k` in `s`. */
  predicate FirstOfClass(s: string, i: nat, k: CharClass) {
    i < |s| && InClass(s[i], k) && forall m :: 0 <= m < i ==> !InClass(s[m], k)
  }

  /** `FirstInClass` finds the first position of class `k`, and no other. */
  lemma FirstInClassIsFirst(s: string, k: CharClass)
    ensures forall i: nat :: FirstOfClass(s, i, k) ==> i == FirstInClass(s, 0, k)
  {
  }

  /** A run of class `k` followed by characters none of class `k` is the first match;
      so is the whole of a run that starts a string and is followed by another class. */
  lemma FirstMatchOfPrefix(a: string, b: string, k: CharClass)
    requires a != [] && forall m :: 0 <= m < |a| ==> InClass(a[m], k)
    requires b == [] || !InClass(b[0], k)
    ensures FirstMatch(a + b, k) == a
  {
    var s := a + b;
    assert FirstInClass(s, 0, k) == 0;
    assert forall m :: 0 <= m < |a| ==> InClass(s[m], k);
    assert |a| == |s| || !InClass(s[|a|], k);
    var j := RunEnd(s, 0, k);
    assert j == |a|;
    assert s[0..j] == a;
  }

  lemma FirstMatchAfterOtherClass(a: string, b: string, k: CharClass)
    requires forall m :: 0 <= m < |a| ==> !InClass(a[m], k)
    requires forall m :: 0 <= m < |b| ==> InClass(b[m], k)
    ensures FirstMatch(a + b, k) == b
  {
    var s := a + b;
    assert forall m :: 0 <= m < |a| ==> !InClass(s[m], k);
    assert |a| == |s| || InClass(s[|a|], k);
    var i := FirstInClass(s, 0, k);
    assert i == |a|;
    assert forall m :: |a| <= m < |s| ==> InClass(s[m], k);
    assert RunEnd(s, i, k) == |s|;
    assert s[i..|s|] == b;
  }

  // ---------------------------------------------------------------------------
  // split, toUpperCase

  /** `s.split(sep)` for a one-character separator. */
  function Split(s: string, sep: char): (parts: seq<string>)
    ensures |parts| >= 1
    ensures sep !in s ==> parts == [s]
    decreases |s|
  {
    if s == [] then [[]]
    else if s[0] == sep then [[]] + Split(s[1..], sep)
    else
      var rest := Split(s[1..], sep);
      assert sep !in s ==> sep !in s[1..] && s == [s[0]] + s[1..];
      [[s[0]] + rest[0]] + rest[1..]
  }

  lemma {:induction false} SplitAt(a: string, sep: char, b: string)
    requires sep !in a
    ensures Split(a + [sep] + b, sep) == [a] + Split(b, sep)
    decreases |a|
  {
    if a == [] {
      assert a + [sep] + b == [sep] + b;
      assert ([sep] + b)[1..] == b;
    } else {
      var s := a + [sep] + b;
      assert s[0] == a[0] && s[1..] == a[1..] + [sep] + b;
      SplitAt(a[1..], sep, b);
      assert [a[0]] + a[1..] == a;
    }
  }

  function UpperChar(c: char): char {
    if 'a' <= c <= 'z' then (c as int - 32) as char else c
  }

  /** `s.toUpperCase()` on the ASCII letters; every other character is kept. */
  function UpperCase(s: string): (r: string)
    ensures |r| == |s|
    ensures forall i :: 0 <= i < |s| ==> r[i] == UpperChar(s[i])
  {
    seq(|s|, i requires 0 <= i < |s| => UpperChar(s[i]))
  }

  // ---------------------------------------------------------------------------
  // indexOf and replace with a string pattern

  predicate OccursAt(w: string, t: string, k: nat) {
    k + |t| <= |w| && w[k..k + |t|] == t
  }

  /** `w.indexOf(t, from)`: the first occurrence of `t` at or after `from`. */
  function IndexOf(w: string, t: string, from: nat): (r: Option<nat>)
    requires from <= |w|
    ensures r.Some? ==> from <= r.value && OccursAt(w, t, r.value)
    ensures r.Some? ==> forall k :: from <= k < r.value ==> !OccursAt(w, t, k)
    ensures r.None? ==> forall k :: from <= k ==> !OccursAt(w, t, k)
    decreases |w| - from
  {
    if OccursAt(w, t, from) then Some(from)
    else if from == |w| then None
    else IndexOf(w, t, from + 1)
  }

  /** No `$` of `rep` begins one of the patterns `$$`, `$&`, `` $` `` or `$'`. */
  predicate LiteralReplacement(rep: string) {
    forall i :: 0 <= i < |rep| - 1 && rep[i] == '$' ==> rep[i + 1] !in "$&`'"
  }

  /** The replacement text that `replace` inserts for a string pattern: `$$`
      stands for `$`, `$&` for the matched text, `` $` `` for the text before the
      match and `$'` for the text after it; every other character, `$` included,
      stands for itself (a string pattern has no capture groups, so `$1` is two
      characters of text). */
  function Substitution(rep: string, matched: string, before: string, after: string): (r: string)
    ensures LiteralReplacement(rep) ==> r == rep
    ensures '$' !in rep ==> r == rep
    decreases |rep|
  {
    if rep == [] then []
    else if |rep| >= 2 && rep[0] == '$' && rep[1] == '$' then "$" + Substitution(rep[2..], matched, before, after)
    else if |rep| >= 2 && rep[0] == '$' && rep[1] == '&' then matched + Substitution(rep[2..], matched, before, after)
    else if |rep| >= 2 && rep[0] == '$' && rep[1] == '`' then before + Substitution(rep[2..], matched, before, after)
    else if |rep| >= 2 && rep[0] == '$' && rep[1] == '\'' then after + Substitution(rep[2..], matched, before, after)
    else
      var r := [rep[0]] + Substitution(rep[1..], matched, before, after);
      assert LiteralReplacement(rep) ==> LiteralReplacement(rep[1..]) by {
        assert forall i :: 0 <= i < |rep[1..]| ==> rep[1..][i] == rep[i + 1];
      }
      assert rep == [rep[0]] + rep[1..];
      r
  }

  /** `w.replace(t, rep)` with a string pattern `t`: only the first occurrence is replaced. */
  function Replace(w: string, t: string, rep: string): (r: string)
    ensures (forall k: nat :: !OccursAt(w, t, k)) ==> r == w
    ensures forall k: nat :: FirstOccurrence(w, t, k) ==>
              r == w[..k] + Substitution(rep, t, w[..k], w[k + |t|..]) + w[k + |t|..]
    ensures forall k: nat :: FirstOccurrence(w, t, k) && LiteralReplacement(rep) ==>
              r == w[..k] + rep + w[k + |t|..]
  {
    FirstOccurrenceIsIndexOf(w, t);
    match IndexOf(w, t, 0)
    case None => w
    case Some(k) => w[..k] + Substitution(rep, t, w[..k], w[k + |t|..]) + w[k + |t|..]
  }

  /** `t` occurs at `k` of `w` and at no earlier position. */
  predicate FirstOccurrence(w: string, t: string, k: nat) {
    OccursAt(w, t, k) && forall m :: 0 <= m < k ==> !OccursAt(w, t, m)
  }

  /** The first occurrence is the one `indexOf` finds from the start. */
  lemma FirstOccurrenceIsIndexOf(w: string, t: string)
    ensures forall k: nat :: FirstOccurrence(w, t, k) ==> IndexOf(w, t, 0) == Some(k)
  {
  }

  /** A value such as `$1M` is inserted as it is: `$1` is no pattern for a string pattern. */
  lemma ReplaceWithDollarAmount()
    ensures Replace("A1+1", "A1", "$1M") == "$1M+1"
  {
    var w, t, rep := "A1+1", "A1", "$1M";
    assert LiteralReplacement(rep) by {
      assert rep[1] == '1';
    }
    assert OccursAt(w, t, 0);
    assert w[..0] + rep + w[2..] == "$1M+1";
  }
}
