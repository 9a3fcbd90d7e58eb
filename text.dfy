/** The Python string built-ins the adapter relies on, restricted to ASCII:
    `str.split(sep)`, `re.split('[+-]', s)`, `str.replace(pat, repl[, count])`,
    `str.strip()` as `int()` applies it, and `int(s)` for base-10 strings.
 */
module Text {
  import opened Outcomes

  predicate IsDigit(c: char) { '0' <= c <= '9' }

  function DigitValue(c: char): (d: nat)
    requires IsDigit(c)
    ensures d < 10
  {
    (c as int) - ('0' as int)
  }

  function DigitChar(d: nat): (c: char)
    requires d < 10
    ensures IsDigit(c) && DigitValue(c) == d
  {
    (('0' as int) + d) as char
  }

  predicate AllDigits(s: string) { forall i :: 0 <= i < |s| ==> IsDigit(s[i]) }

  /** Value of a string of decimal digits, most significant first. */
  function DigitsValue(s: string): nat
    requires AllDigits(s)
  {
    if s == [] then 0 else 10 * DigitsValue(s[..|s| - 1]) + DigitValue(s[|s| - 1])
  }

  /** Appending a digit shifts the value one decimal place. */
  lemma DigitsSnoc(a: string, c: char)
    requires AllDigits(a) && IsDigit(c)
    ensures AllDigits(a + [c]) && DigitsValue(a + [c]) == 10 * DigitsValue(a) + DigitValue(c)
  {
    assert (a + [c])[..|a|] == a;
  }

  /** The value of `a` followed by two digits. */
  lemma DigitsAppend2(a: string, b: string)
    requires AllDigits(a) && AllDigits(b) && |b| == 2
    ensures AllDigits(a + b) && DigitsValue(a + b) == 100 * DigitsValue(a) + DigitsValue(b)
  {
    var c0, c1 := b[0], b[1];
    var a0 := a + [c0];
    DigitsSnoc(a, c0);
    DigitsSnoc(a0, c1);
    assert a + b == a0 + [c1];
    assert b[..1] == [c0] && [c0][..0] == [];
    assert DigitsValue([c0]) == DigitValue(c0);
    assert DigitsValue(b) == 10 * DigitsValue(b[..1]) + DigitValue(c1);
  }

  /** The decimal digits of `n`, without leading zeros (Python's `str(n)` for n >= 0). */
  function Digits(n: nat): (s: string)
    ensures |s| > 0 && AllDigits(s)
  {
    if n < 10 then [DigitChar(n)] else Digits(n / 10) + [DigitChar(n % 10)]
  }

  /** Python's `str(n)` for an int. */
  function Show(n: int): string
  {
    if n < 0 then "-" + Digits(-n) else Digits(n)
  }

  /** Characters for which `str.isspace()` holds, ASCII part. */
  predicate IsSpace(c: char)
  {
    c == ' ' || (9 <= c as int <= 13) || (28 <= c as int <= 31)
  }

  /** Number of whitespace characters at the start of `s`. */
  function LeadingSpaces(s: string): (n: nat)
    ensures n <= |s|
    ensures forall i :: 0 <= i < n ==> IsSpace(s[i])
    ensures n < |s| ==> !IsSpace(s[n])
  {
    if |s| > 0 && IsSpace(s[0]) then 1 + LeadingSpaces(s[1..]) else 0
  }

  /** Number of whitespace characters at the end of `s`. */
  function TrailingSpaces(s: string): (n: nat)
    ensures n <= |s|
    ensures forall i :: |s| - n <= i < |s| ==> IsSpace(s[i])
    ensures n < |s| ==> !IsSpace(s[|s| - 1 - n])
  {
    if |s| > 0 && IsSpace(s[|s| - 1]) then 1 + TrailingSpaces(s[..|s| - 1]) else 0
  }

  function StripLeft(s: string): string { s[LeadingSpaces(s)..] }

  function StripRight(s: string): string { s[..|s| - TrailingSpaces(s)] }

  function Strip(s: string): string { StripRight(StripLeft(s)) }

  /** No character of `s` is in `cs`. */
  predicate Avoids(s: string, cs: set<char>) { forall i :: 0 <= i < |s| ==> s[i] !in cs }

  /** `str.split` on single characters: `s.split(c)` is `SplitOn(s, {c})` and
      `re.split('[+-]', s)` is `SplitOn(s, {'+', '-'})`. */
  function SplitOn(s: string, seps: set<char>): (r: seq<string>)
    ensures |r| >= 1
    ensures forall i, j :: 0 <= i < |r| && 0 <= j < |r[i]| ==> r[i][j] !in seps
    decreases |s|
  {
    if s == [] then [""]
    else
      var rest := SplitOn(s[1..], seps);
      if s[0] in seps then [""] + rest
      else [[s[0]] + rest[0]] + rest[1..]
  }

  /** `c.join(parts)`, the inverse of `str.split(c)`. */
  function Join(parts: seq<string>, c: char): string
    requires |parts| >= 1
  {
    if |parts| == 1 then parts[0] else parts[0] + [c] + Join(parts[1..], c)
  }

  lemma JoinConsHead(x: char, parts: seq<string>, c: char)
    requires |parts| >= 1
    ensures Join([[x] + parts[0]] + parts[1..], c) == [x] + Join(parts, c)
  {
    var q := [[x] + parts[0]] + parts[1..];
    if |parts| > 1 {
      assert q[1..] == parts[1..];
      assert Join(q, c) == q[0] + [c] + Join(q[1..], c);
    }
  }

  /** `c.join(s.split(c)) == s`. */
  lemma {:induction false} SplitJoin(s: string, c: char)
    ensures Join(SplitOn(s, {c}), c) == s
  {
    if s != [] {
      var rest := SplitOn(s[1..], {c});
      SplitJoin(s[1..], c);
      if s[0] == c {
        assert SplitOn(s, {c}) == [""] + rest;
        assert ([""] + rest)[1..] == rest;
      } else {
        assert SplitOn(s, {c}) == [[s[0]] + rest[0]] + rest[1..];
        JoinConsHead(s[0], rest, c);
      }
    }
  }

  /** A string without separators splits into itself. */
  lemma {:induction false} SplitNoSep(s: string, seps: set<char>)
    requires forall i :: 0 <= i < |s| ==> s[i] !in seps
    ensures SplitOn(s, seps) == [s]
  {
    if s != [] {
      SplitNoSep(s[1..], seps);
      assert [s[0]] + s[1..] == s;
    }
  }

  /** Splitting at the first separator: the part before it and the split of the rest. */
  lemma {:induction false} SplitAtFirst(a: string, c: char, b: string, seps: set<char>)
    requires c in seps
    requires forall i :: 0 <= i < |a| ==> a[i] !in seps
    ensures SplitOn(a + [c] + b, seps) == [a] + SplitOn(b, seps)
  {
    if a == [] {
      assert a + [c] + b == [c] + b;
      assert ([c] + b)[1..] == b;
    } else {
      SplitAtFirst(a[1..], c, b, seps);
      var s := a + [c] + b;
      assert s[0] == a[0] && s[1..] == a[1..] + [c] + b;
      assert [a[0]] + a[1..] == a;
    }
  }

  /** Python's `s.replace(pat, repl, count)`: at most `count` leftmost
      occurrences when count >= 0, all of them when count < 0. */
  function Replace(s: string, pat: char, repl: string, count: int): string
  {
    if s == [] then []
    else if s[0] == pat && count != 0 then repl + Replace(s[1..], pat, repl, if count > 0 then count - 1 else count)
    else [s[0]] + Replace(s[1..], pat, repl, count)
  }

  /** A prefix without `pat` is left as it is. */
  lemma {:induction false} ReplaceSkip(x: string, y: string, pat: char, repl: string, count: int)
    requires forall i :: 0 <= i < |x| ==> x[i] != pat
    ensures Replace(x + y, pat, repl, count) == x + Replace(y, pat, repl, count)
  {
    if x != [] {
      ReplaceSkip(x[1..], y, pat, repl, count);
      assert (x + y)[0] == x[0] && (x + y)[1..] == x[1..] + y;
      assert [x[0]] + (x[1..] + Replace(y, pat, repl, count)) == x + Replace(y, pat, repl, count);
    } else {
      assert x + y == y;
    }
  }

  /** The first `pat` after a prefix without one is replaced, and the count
      goes down by one. */
  lemma ReplaceFirst(x: string, y: string, pat: char, repl: string, count: int)
    requires forall i :: 0 <= i < |x| ==> x[i] != pat
    requires count != 0
    ensures Replace(x + [pat] + y, pat, repl, count)
      == x + repl + Replace(y, pat, repl, if count > 0 then count - 1 else count)
  {
    ReplaceSkip(x, [pat] + y, pat, repl, count);
    assert x + [pat] + y == x + ([pat] + y);
    assert ([pat] + y)[1..] == y;
  }

  lemma ReplaceAbsent(s: string, pat: char, repl: string, count: int)
    requires forall i :: 0 <= i < |s| ==> s[i] != pat
    ensures Replace(s, pat, repl, count) == s
  {
    ReplaceSkip(s, [], pat, repl, count);
    assert s + [] == s;
  }

  /** A count of zero replaces nothing. */
  lemma {:induction false} ReplaceNone(s: string, pat: char, repl: string)
    ensures Replace(s, pat, repl, 0) == s
  {
    if s != [] {
      ReplaceNone(s[1..], pat, repl);
      assert [s[0]] + s[1..] == s;
    }
  }

  /** The body of a base-10 literal that `int()` accepts after the sign:
      digits with single underscores between them. */
  predicate DecimalBody(b: string)
  {
    && |b| > 0 && IsDigit(b[0]) && IsDigit(b[|b| - 1])
    && (forall i :: 0 <= i < |b| ==> IsDigit(b[i]) || b[i] == '_')
    && (forall i :: 0 <= i < |b| - 1 ==> !(b[i] == '_' && b[i + 1] == '_'))
  }

  lemma UnderscoresGone(b: string)
    requires forall i :: 0 <= i < |b| ==> IsDigit(b[i]) || b[i] == '_'
    ensures AllDigits(Replace(b, '_', "", -1))
    decreases |b|
  {
    if b != [] {
      UnderscoresGone(b[1..]);
    }
  }

  function DecimalValue(b: string): nat
    requires DecimalBody(b)
  {
    UnderscoresGone(b);
    DigitsValue(Replace(b, '_', "", -1))
  }

  /** Python's `int(s)` for a string: surrounding whitespace, an optional
      sign, then a base-10 body; anything else raises (None here). */
  function PyInt(s: string): Option<int>
  {
    ReadSigned(Strip(s))
  }

  /** `int()` on text with the whitespace already stripped. */
  function ReadSigned(t: string): Option<int>
  {
    var signed := |t| > 0 && (t[0] == '+' || t[0] == '-');
    var body := if signed then t[1..] else t;
    if !DecimalBody(body) then None
    else if signed && t[0] == '-' then Some(0 - DecimalValue(body) as int)
    else Some(DecimalValue(body))
  }

  lemma {:induction false} DigitsRoundTrip(n: nat)
    ensures DigitsValue(Digits(n)) == n
  {
    if n >= 10 {
      DigitsRoundTrip(n / 10);
      var s := Digits(n);
      assert s[..|s| - 1] == Digits(n / 10);
    }
  }

  /** Digit strings of the same length and value are the same string. */
  lemma {:induction false} DigitsInjective(a: string, b: string)
    requires |a| == |b| && AllDigits(a) && AllDigits(b)
    requires DigitsValue(a) == DigitsValue(b)
    ensures a == b
  {
    if a != [] {
      var n := |a| - 1;
      var x, y := DigitsValue(a[..n]), DigitsValue(b[..n]);
      var da, db := DigitValue(a[n]), DigitValue(b[n]);
      assert 10 * x + da == 10 * y + db;
      LastDigitUnique(x, y, da, db);
      DigitsInjective(a[..n], b[..n]);
      assert (a[n] as int) == (b[n] as int);
      assert a == a[..n] + [a[n]];
      assert b == b[..n] + [b[n]];
    }
  }

  /** A decimal shift followed by one digit determines both. */
  lemma LastDigitUnique(x: nat, y: nat, da: nat, db: nat)
    requires da < 10 && db < 10 && 10 * x + da == 10 * y + db
    ensures x == y && da == db
  {
  }

  lemma StripKeeps(s: string)
    requires |s| > 0 && !IsSpace(s[0]) && !IsSpace(s[|s| - 1])
    ensures Strip(s) == s
  {
    assert LeadingSpaces(s) == 0;
    assert StripLeft(s) == s;
    assert TrailingSpaces(s) == 0;
  }

  /** `int(str(n)) == n`: decimal text is read back as the integer it shows. */
  lemma PyIntShow(n: int)
    ensures PyInt(Show(n)) == Some(n)
  {
    if n >= 0 {
      PyIntDigits(Digits(n));
      DigitsRoundTrip(n);
    } else {
      var t := Show(n);
      assert t[1..] == Digits(-n);
      PyIntMinus(t);
      DigitsRoundTrip(-n);
    }
  }

  /** `int('-' + digits)` is the negated decimal value. */
  lemma PyIntMinus(t: string)
    requires |t| > 1 && t[0] == '-' && AllDigits(t[1..])
    ensures PyInt(t) == Some(-(DigitsValue(t[1..]) as int))
  {
    var s := t[1..];
    assert t[|t| - 1] == s[|s| - 1];
    StripKeeps(t);
    ReplaceAbsent(s, '_', "", -1);
    assert DecimalBody(s);
    assert DecimalValue(s) == DigitsValue(s);
    ReadMinus(t);
  }

  lemma ReadMinus(t: string)
    requires |t| > 1 && t[0] == '-' && DecimalBody(t[1..])
    ensures ReadSigned(t) == Some(0 - DecimalValue(t[1..]) as int)
  {
  }

  /** `int()` of a non-empty string of digits is its decimal value. */
  lemma PyIntDigits(s: string)
    requires |s| > 0 && AllDigits(s)
    ensures PyInt(s) == Some(DigitsValue(s) as int)
  {
    StripKeeps(s);
    ReplaceAbsent(s, '_', "", -1);
    assert DecimalBody(s);
    assert DecimalValue(s) == DigitsValue(s);
    var t := Strip(s);
    assert t == s && !(t[0] == '+' || t[0] == '-');
  }

  /** A character that is neither a digit, an underscore, a sign nor
      whitespace makes `int()` raise. */
  lemma PyIntRejects(s: string, k: nat)
    requires k < |s|
    requires !IsDigit(s[k]) && s[k] != '_' && s[k] != '+' && s[k] != '-' && !IsSpace(s[k])
    ensures PyInt(s) == None
  {
    var a := LeadingSpaces(s);
    var l := StripLeft(s);
    assert k >= a;
    assert l[k - a] == s[k];
    var b := TrailingSpaces(l);
    var t := StripRight(l);
    assert k - a < |l| - b;
    assert t[k - a] == s[k];
    assert t == Strip(s);
    var signed := |t| > 0 && (t[0] == '+' || t[0] == '-');
    if signed {
      assert k - a >= 1;
      assert t[1..][k - a - 1] == s[k];
    }
  }
}
