/** The Python 2 `str` built-ins that nandwriter.py applies to the text its
    tools print: `find`, the `in` operator, slicing with negative and
    out-of-range bounds, `lower`, `int` and `str` on integers. */
module PyStr {

  datatype Result<T> = Ok(value: T) | Err(msg: string)

  /** `p` occurs in `s` starting at index `i`. */
  predicate OccursAt(s: string, p: string, i: int)
  {
    0 <= i && i + |p| <= |s| && s[i..i + |p|] == p
  }

  /** Python's `p in s`. */
  predicate Contains(s: string, p: string)
  {
    exists i | 0 <= i <= |s| - |p| :: OccursAt(s, p, i)
  }

  /** Python's `s.find(p, i)`, scanning from index `i`. */
  function FindFrom(s: string, p: string, i: nat): int
    decreases |s| - i
  {
    if i + |p| > |s| then -1
    else if s[i..i + |p|] == p then i
    else FindFrom(s, p, i + 1)
  }

  /** Python's `s.find(p)`. */
  function Find(s: string, p: string): int
  {
    FindFrom(s, p, 0)
  }

  /** The scan returns the lowest index at or after `i` where `p` occurs, or
      -1 when there is none. */
  lemma {:induction false} FindFromSpec(s: string, p: string, i: nat)
    ensures FindFrom(s, p, i) == -1 || (i <= FindFrom(s, p, i) && OccursAt(s, p, FindFrom(s, p, i)))
    ensures FindFrom(s, p, i) == -1 <==> forall j :: i <= j ==> !OccursAt(s, p, j)
    ensures forall j :: i <= j < FindFrom(s, p, i) ==> !OccursAt(s, p, j)
    decreases |s| - i
  {
    if i + |p| > |s| {
      assert forall j :: i <= j ==> !OccursAt(s, p, j);
    } else if s[i..i + |p|] == p {
      assert OccursAt(s, p, i);
    } else {
      FindFromSpec(s, p, i + 1);
      assert !OccursAt(s, p, i);
    }
  }

  /** `s.find(p)` is the first occurrence of `p` in `s`, and -1 exactly when
      `p in s` is false. */
  lemma FindSpec(s: string, p: string)
    ensures Find(s, p) == -1 || 0 <= Find(s, p) <= |s| - |p|
    ensures Find(s, p) >= 0 ==> OccursAt(s, p, Find(s, p)) && forall j :: 0 <= j < Find(s, p) ==> !OccursAt(s, p, j)
    ensures Find(s, p) == -1 <==> !Contains(s, p)
  {
    FindFromSpec(s, p, 0);
  }

  /** The index Python uses for the bound `i` of a slice of `s`: a negative
      bound counts from the end, and either kind is clamped to `0..|s|`. */
  function SliceIndex(s: string, i: int): (k: nat)
    ensures k <= |s|
    ensures 0 <= i <= |s| ==> k == i
    ensures i > |s| ==> k == |s|
    ensures -|s| <= i < 0 ==> k == |s| + i
    ensures i < -|s| ==> k == 0
  {
    if i < 0 then (if i + |s| < 0 then 0 else i + |s|)
    else if i > |s| then |s|
    else i
  }

  /** Python's `s[i:]`. */
  function SliceFrom(s: string, i: int): string
  {
    s[SliceIndex(s, i)..]
  }

  /** Python's `s[:j]`. */
  function SliceTo(s: string, j: int): string
  {
    s[..SliceIndex(s, j)]
  }

  /** `s[i:]` is a suffix of `s`: the text from index `i`, or nothing when
      `i` is past the end. */
  lemma SliceFromSpec(s: string, i: int)
    ensures |SliceFrom(s, i)| <= |s| && s == s[..|s| - |SliceFrom(s, i)|] + SliceFrom(s, i)
    ensures 0 <= i <= |s| ==> SliceFrom(s, i) == s[i..]
    ensures i > |s| ==> SliceFrom(s, i) == []
  {
  }

  /** `s[:j]` is a prefix of `s`; `s[:-1]` drops the last character. */
  lemma SliceToSpec(s: string, j: int)
    ensures |SliceTo(s, j)| <= |s| && s == SliceTo(s, j) + s[|SliceTo(s, j)|..]
    ensures 0 <= j <= |s| ==> SliceTo(s, j) == s[..j]
    ensures j == -1 ==> SliceTo(s, j) == if s == [] then [] else s[..|s| - 1]
  {
  }

  /** `lower()` on one character of a Python 2 byte string (C locale): only
      the ASCII capitals change. */
  function Lower(c: char): char
  {
    if 'A' <= c <= 'Z' then (c as int + 32) as char else c
  }

  /** Python 2 `s.lower()`, character by character. */
  function LowerStr(s: string): string
  {
    if s == [] then [] else [Lower(s[0])] + LowerStr(s[1..])
  }

  /** The characters `int()` skips around a number: C's `isspace`. */
  predicate IsSpace(c: char)
  {
    c == ' ' || c == '\t' || c == '\n' || c == '\r' || c as int == 11 || c as int == 12
  }

  predicate IsDigit(c: char)
  {
    '0' <= c <= '9'
  }

  /** A non-empty run of ASCII decimal digits. */
  predicate IsDigits(d: string)
  {
    |d| > 0 && forall i :: 0 <= i < |d| ==> IsDigit(d[i])
  }

  /** The value of a string of decimal digits, most significant first. */
  function DigitsValue(d: string): nat
  {
    if d == [] then 0
    else 10 * DigitsValue(d[..|d| - 1]) + (if IsDigit(d[|d| - 1]) then d[|d| - 1] as int - '0' as int else 0)
  }

  /** `s.lstrip()`: drops the leading white space. */
  function StripLeft(s: string): string
  {
    if s != [] && IsSpace(s[0]) then StripLeft(s[1..]) else s
  }

  /** `s.rstrip()`: drops the trailing white space. */
  function StripRight(s: string): string
  {
    if s != [] && IsSpace(s[|s| - 1]) then StripRight(s[..|s| - 1]) else s
  }

  /** Python's `int(s)` on a byte string, base 10: optional surrounding
      white space, an optional sign, then at least one decimal digit; any
      other text raises ValueError. */
  function ParseInt(s: string): Result<int>
  {
    var t := StripRight(StripLeft(s));
    if t != [] && (t[0] == '-' || t[0] == '+') then
      if IsDigits(t[1..]) then
        var v: int := DigitsValue(t[1..]);
        Ok(if t[0] == '-' then -v else v)
      else Err("invalid literal for int()")
    else if IsDigits(t) then Ok(DigitsValue(t))
    else Err("invalid literal for int()")
  }

  /** Python's `str(n)` for a non-negative integer. */
  function NatStr(n: nat): string
  {
    if n < 10 then ['0' + n as char] else NatStr(n / 10) + ['0' + (n % 10) as char]
  }

  /** Python's `str(n)` for any integer. */
  function IntStr(n: int): string
  {
    if n < 0 then "-" + NatStr(-n) else NatStr(n)
  }

  // ---------------------------------------------------------------------
  // Lemmas about the built-ins

  /** Any text that embeds `p` contains it. */
  lemma {:induction false} ContainsInfix(a: string, p: string, b: string)
    ensures Contains(a + p + b, p)
  {
    assert (a + p + b)[|a|..|a| + |p|] == p;
    assert OccursAt(a + p + b, p, |a|);
  }

  /** Text around a string that contains `p` still contains it. */
  lemma {:induction false} ContainsWiden(a: string, s: string, b: string, p: string)
    requires Contains(s, p)
    ensures Contains(a + s + b, p)
  {
    var i :| 0 <= i <= |s| - |p| && OccursAt(s, p, i);
    assert (a + s + b)[|a| + i..|a| + i + |p|] == s[i..i + |p|];
    assert OccursAt(a + s + b, p, |a| + i);
  }

  /** `str(n)` of a non-negative integer is its decimal digits, with no
      leading zero unless it is "0" itself. */
  lemma {:induction false} NatStrDigits(n: nat)
    ensures IsDigits(NatStr(n)) && DigitsValue(NatStr(n)) == n
    ensures NatStr(n)[0] == '0' ==> NatStr(n) == "0"
  {
    if n >= 10 {
      NatStrDigits(n / 10);
      var r := NatStr(n);
      assert r[..|r| - 1] == NatStr(n / 10);
      assert r[0] == NatStr(n / 10)[0];
    }
  }

  /** `str(n)` is a non-empty run of digits, after a '-' when `n` is
      negative; the digits have no leading zero unless `n` is 0. */
  lemma IntStrDigits(n: int)
    ensures IntStr(n) != []
    ensures forall i :: 0 <= i < |IntStr(n)| ==> IsDigit(IntStr(n)[i]) || (i == 0 && IntStr(n)[i] == '-')
    ensures n < 0 <==> IntStr(n)[0] == '-'
    ensures IntStr(n)[0] == '0' ==> n == 0 && IntStr(n) == "0"
    ensures n < 0 ==> |IntStr(n)| >= 2 && IntStr(n)[1] != '0'
  {
    NatStrDigits(if n < 0 then -n else n);
  }

  /** The other direction of `str()`: a digit string without a leading
      zero (or "0" itself) is `str()` of its own value, so `str(n)` is the
      only such string with value `n`. */
  lemma {:induction false} NatStrCanonical(d: string)
    requires IsDigits(d) && (d[0] == '0' ==> d == "0")
    ensures NatStr(DigitsValue(d)) == d
  {
    var c := d[|d| - 1];
    assert IsDigit(c);
    if |d| == 1 {
      assert d == [c];
    } else {
      var h := d[..|d| - 1];
      assert h[0] == d[0];
      assert IsDigit(h[|h| - 1]);
      NatStrCanonical(h);
      assert h[0] != '0' && NatStr(0) == "0";
      assert DigitsValue(d) == 10 * DigitsValue(h) + (c as int - '0' as int);
      assert d == h + [c];
    }
  }

  /** Dropping the last decimal digit divides the value by ten. */
  lemma DropLastDigit(d: string)
    requires IsDigits(d) && |d| > 1
    ensures IsDigits(d[..|d| - 1]) && DigitsValue(d[..|d| - 1]) == DigitsValue(d) / 10
  {
    var c := d[|d| - 1] as int - '0' as int;
    assert IsDigit(d[|d| - 1]) && 0 <= c < 10;
    assert DigitsValue(d) == 10 * DigitsValue(d[..|d| - 1]) + c;
  }

  /** Round trip: `int(str(n)) == n` for every integer. */
  lemma {:induction false} ParseIntStr(n: int)
    ensures ParseInt(IntStr(n)) == Ok(n)
  {
    IntStrDigits(n);
    NatStrDigits(if n < 0 then -n else n);
    var r := IntStr(n);
    assert StripLeft(r) == r by { assert !IsSpace(r[0]); }
    assert StripRight(r) == r by { assert !IsSpace(r[|r| - 1]); }
    if n < 0 {
      assert r[1..] == NatStr(-n);
    } else {
      assert r[0] != '-' && r[0] != '+';
    }
  }

  /** `int()` of a bare run of digits is its decimal value. */
  lemma ParseIntDigits(d: string)
    requires IsDigits(d)
    ensures ParseInt(d) == Ok(DigitsValue(d))
  {
    assert StripLeft(d) == d by { assert !IsSpace(d[0]); }
    assert StripRight(d) == d by { assert !IsSpace(d[|d| - 1]); }
  }

  /** `lstrip()` removes a prefix made only of white space, and all of it. */
  lemma {:induction false} StripLeftSpec(s: string)
    ensures |StripLeft(s)| <= |s| && StripLeft(s) == s[|s| - |StripLeft(s)|..]
    ensures forall i :: 0 <= i < |s| - |StripLeft(s)| ==> IsSpace(s[i])
    ensures StripLeft(s) == [] || !IsSpace(StripLeft(s)[0])
    decreases |s|
  {
    if s != [] && IsSpace(s[0]) {
      StripLeftSpec(s[1..]);
    }
  }

  /** `rstrip()` removes a suffix made only of white space, and all of it. */
  lemma {:induction false} StripRightSpec(s: string)
    ensures |StripRight(s)| <= |s| && StripRight(s) == s[..|StripRight(s)|]
    ensures forall i :: |StripRight(s)| <= i < |s| ==> IsSpace(s[i])
    ensures StripRight(s) == [] || !IsSpace(StripRight(s)[|StripRight(s)| - 1])
    decreases |s|
  {
    if s != [] && IsSpace(s[|s| - 1]) {
      StripRightSpec(s[..|s| - 1]);
    }
  }

  /** Text that `int()` accepts holds nothing but white space, signs and
      digits: a letter, a dot or any other character raises ValueError. */
  lemma ParseIntChars(s: string)
    requires ParseInt(s).Ok?
    ensures forall i :: 0 <= i < |s| ==> IsDigit(s[i]) || IsSpace(s[i]) || s[i] == '-' || s[i] == '+'
  {
    var l := StripLeft(s);
    var t := StripRight(l);
    StripLeftSpec(s);
    StripRightSpec(l);
    assert forall i :: 0 <= i < |t| ==> IsDigit(t[i]) || t[i] == '-' || t[i] == '+' by {
      if t != [] && (t[0] == '-' || t[0] == '+') {
        forall i | 1 <= i < |t|
          ensures IsDigit(t[i])
        {
          assert t[1..][i - 1] == t[i];
        }
      }
    }
    forall i | 0 <= i < |s|
      ensures IsDigit(s[i]) || IsSpace(s[i]) || s[i] == '-' || s[i] == '+'
    {
      var k := |s| - |l|;
      if k <= i < k + |t| {
        assert s[i] == l[i - k] == t[i - k];
      } else if k + |t| <= i {
        assert s[i] == l[i - k];
      }
    }
  }

  predicate AllSpace(w: string)
  {
    forall k :: 0 <= k < |w| ==> IsSpace(w[k])
  }

  /** A decimal literal with an optional sign, and the value it denotes. */
  predicate Numeral(t: string, v: int)
  {
    || (IsDigits(t) && v == DigitsValue(t))
    || (t != [] && (t[0] == '-' || t[0] == '+') && IsDigits(t[1..]) &&
        v == if t[0] == '-' then -(DigitsValue(t[1..]) as int) else DigitsValue(t[1..]))
  }

  /** `s` is a numeral `s[i..j]` with nothing but white space around it. */
  predicate IntLiteral(s: string, v: int)
  {
    exists i, j | 0 <= i <= j <= |s| :: AllSpace(s[..i]) && AllSpace(s[j..]) && Numeral(s[i..j], v)
  }

  /** Stripping white space in front of text that does not start with white
      space leaves that text. */
  lemma {:induction false} StripLeftPrefix(w: string, r: string)
    requires AllSpace(w) && (r == [] || !IsSpace(r[0]))
    ensures StripLeft(w + r) == r
    decreases |w|
  {
    if w == [] {
      assert w + r == r;
    } else {
      assert (w + r)[0] == w[0] && (w + r)[1..] == w[1..] + r;
      StripLeftPrefix(w[1..], r);
    }
  }

  /** Stripping white space after text that does not end in white space
      leaves that text. */
  lemma {:induction false} StripRightSuffix(r: string, w: string)
    requires AllSpace(w) && (r == [] || !IsSpace(r[|r| - 1]))
    ensures StripRight(r + w) == r
    decreases |w|
  {
    if w == [] {
      assert r + w == r;
    } else {
      assert (r + w)[|r + w| - 1] == w[|w| - 1] && (r + w)[..|r + w| - 1] == r + w[..|w| - 1];
      StripRightSuffix(r, w[..|w| - 1]);
    }
  }

  /** What `int()` accepts is a numeral surrounded by white space. */
  lemma ParseIntSound(s: string, v: int)
    requires ParseInt(s) == Ok(v)
    ensures IntLiteral(s, v)
  {
    var l := StripLeft(s);
    var t := StripRight(l);
    StripLeftSpec(s);
    StripRightSpec(l);
    var i := |s| - |l|;
    var j := i + |t|;
    assert s[i..j] == t;
    assert Numeral(s[i..j], v);
    assert AllSpace(s[..i]);
    assert AllSpace(s[j..]) by {
      forall k | 0 <= k < |s| - j
        ensures IsSpace(s[j..][k])
      {
        assert s[j..][k] == l[|t| + k];
      }
    }
  }

  /** A numeral between two runs of white space is read as its value. */
  lemma {:induction false} ParseIntPadded(w1: string, n: string, w2: string, v: int)
    requires AllSpace(w1) && AllSpace(w2) && Numeral(n, v)
    ensures ParseInt(w1 + n + w2) == Ok(v)
  {
    if n != [] && (n[0] == '-' || n[0] == '+') {
      assert IsDigits(n[1..]);
      assert n[|n| - 1] == n[1..][|n| - 2];
    } else {
      assert IsDigits(n);
    }
    assert w1 + n + w2 == w1 + (n + w2);
    StripLeftPrefix(w1, n + w2);
    StripRightSuffix(n, w2);
    assert StripRight(StripLeft(w1 + n + w2)) == n;
  }

  /** Every numeral surrounded by white space is accepted, with its value. */
  lemma ParseIntComplete(s: string, v: int)
    requires IntLiteral(s, v)
    ensures ParseInt(s) == Ok(v)
  {
    var a, b :| 0 <= a <= b <= |s| && AllSpace(s[..a]) && AllSpace(s[b..]) && Numeral(s[a..b], v);
    assert s == s[..a] + s[a..b] + s[b..];
    ParseIntPadded(s[..a], s[a..b], s[b..], v);
  }

  /** `int(s)` returns `v` exactly when `s` is a numeral denoting `v`, with
      only white space before and after it; every other text, such as
      "1 2", "--1", "1-" or "+", raises ValueError. */
  lemma ParseIntIff(s: string, v: int)
    ensures ParseInt(s) == Ok(v) <==> IntLiteral(s, v)
  {
    if ParseInt(s) == Ok(v) {
      ParseIntSound(s, v);
    }
    if IntLiteral(s, v) {
      ParseIntComplete(s, v);
    }
  }

  /** `int()` rejects the empty string: there is no digit to read. */
  lemma ParseIntEmpty()
    ensures ParseInt("").Err?
  {
  }
}
