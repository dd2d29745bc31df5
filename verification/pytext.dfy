/**
 * The small pieces of Python's `str` behaviour the service relies on:
 * `strip()`, `lstrip(chars)`, `split(",")`, prefix slicing `s[:n]`, and the
 * decimal literals accepted by `int(str)` and `float(str)`.
 */
module PyText {

  datatype Option<T> = None | Some(value: T)

  /** Python's `str.isspace()` set of whitespace characters. */
  predicate IsSpace(c: char) {
    || c == ' ' || c == '\t' || c == '\n' || c == '\r'
    || c == '\U{B}' || c == '\U{C}'
    || ('\U{1C}' <= c <= '\U{1F}')
    || c == '\U{85}' || c == '\U{A0}' || c == '\U{1680}'
    || ('\U{2000}' <= c <= '\U{200A}')
    || c == '\U{2028}' || c == '\U{2029}' || c == '\U{202F}' || c == '\U{205F}' || c == '\U{3000}'
  }

  predicate AllSpace(s: string) {
    forall i :: 0 <= i < |s| ==> IsSpace(s[i])
  }

  /** `s.lstrip()`: drop leading whitespace. */
  function TrimLeft(s: string): (r: string)
    ensures |r| <= |s|
  {
    if s != [] && IsSpace(s[0]) then TrimLeft(s[1..]) else s
  }

  /** `s.rstrip()`: drop trailing whitespace. */
  function TrimRight(s: string): (r: string)
    ensures |r| <= |s|
  {
    if s != [] && IsSpace(s[|s| - 1]) then TrimRight(s[..|s| - 1]) else s
  }

  /** `s.strip()`. */
  function Strip(s: string): (r: string)
    ensures |r| <= |s|
    ensures r == [] || (!IsSpace(r[0]) && !IsSpace(r[|r| - 1]))
  {
    var l := TrimLeft(s);
    TrimLeftSpec(s);
    TrimRightSpec(l);
    TrimRight(l)
  }

  /** `lstrip()` removes exactly the leading whitespace run. */
  lemma {:induction false} TrimLeftSpec(s: string)
    ensures TrimLeft(s) == s[|s| - |TrimLeft(s)|..]
    ensures AllSpace(s[..|s| - |TrimLeft(s)|])
    ensures TrimLeft(s) == [] || !IsSpace(TrimLeft(s)[0])
  {
    if s != [] && IsSpace(s[0]) {
      TrimLeftSpec(s[1..]);
      var k := |s| - |TrimLeft(s)|;
      assert s[..k] == [s[0]] + s[1..][..k - 1];
    }
  }

  /** `rstrip()` removes exactly the trailing whitespace run. */
  lemma {:induction false} TrimRightSpec(s: string)
    ensures TrimRight(s) == s[..|TrimRight(s)|]
    ensures AllSpace(s[|TrimRight(s)|..])
    ensures TrimRight(s) == [] || !IsSpace(TrimRight(s)[|TrimRight(s)| - 1])
  {
    if s != [] && IsSpace(s[|s| - 1]) {
      var t := s[..|s| - 1];
      TrimRightSpec(t);
      var k := |TrimRight(s)|;
      assert s[k..] == t[k..] + [s[|s| - 1]];
    }
  }

  /** `s.strip()` keeps exactly the middle of `s` between two whitespace runs. */
  lemma StripIsInfix(s: string)
    ensures var i := |s| - |TrimLeft(s)|;
            && i + |Strip(s)| <= |s|
            && s[i..i + |Strip(s)|] == Strip(s)
            && AllSpace(s[..i]) && AllSpace(s[i + |Strip(s)|..])
  {
    var l := TrimLeft(s);
    TrimLeftSpec(s);
    TrimRightSpec(l);
    var i := |s| - |l|;
    var r := TrimRight(l);
    assert l == s[i..];
    assert s[i..i + |r|] == r by {
      assert r == l[..|r|];
      assert s[i..i + |r|] == s[i..][..|r|];
    }
    assert AllSpace(s[i + |r|..]) by {
      assert s[i + |r|..] == l[|r|..];
    }
  }

  /** A stripped string is blank exactly when the original was all whitespace. */
  lemma StripEmptyIff(s: string)
    ensures Strip(s) == [] <==> AllSpace(s)
  {
    var l := TrimLeft(s);
    var r := TrimRight(l);
    TrimLeftSpec(s);
    TrimRightSpec(l);
    assert l != [] ==> l[0] == s[|s| - |l|];
    assert r == [] ==> l[|r|..] == l;
    assert l == [] ==> s[..|s| - |l|] == s;
  }

  /** A string with no whitespace at either end is its own strip. */
  lemma StripUnchanged(s: string)
    requires s == [] || (!IsSpace(s[0]) && !IsSpace(s[|s| - 1]))
    ensures Strip(s) == s
  {
  }

  /** Stripping twice is stripping once. */
  lemma StripIdempotent(s: string)
    ensures Strip(Strip(s)) == Strip(s)
  {
    StripUnchanged(Strip(s));
  }

  /** `s.lstrip(chars)`: drop the longest prefix made of characters of `chars`
      (a character set, not a prefix string). */
  function LStripChars(s: string, chars: set<char>): (r: string)
    ensures |r| <= |s| && r == s[|s| - |r|..]
    ensures forall i :: 0 <= i < |s| - |r| ==> s[i] in chars
    ensures r == [] || r[0] !in chars
  {
    if s != [] && s[0] in chars then LStripChars(s[1..], chars) else s
  }

  /** `s.split(sep)` for a one-character separator: always at least one piece. */
  function Split(s: string, sep: char): (r: seq<string>)
    ensures |r| >= 1
    ensures forall i :: 0 <= i < |r| ==> sep !in r[i]
  {
    if s == [] then [""]
    else
      var rest := Split(s[1..], sep);
      if s[0] == sep then [""] + rest
      else [[s[0]] + rest[0]] + rest[1..]
  }

  /** `sep.join(pieces)`. */
  function Join(pieces: seq<string>, sep: char): string
    requires |pieces| >= 1
  {
    if |pieces| == 1 then pieces[0] else pieces[0] + [sep] + Join(pieces[1..], sep)
  }

  lemma {:induction false} JoinSplit(s: string, sep: char)
    ensures Join(Split(s, sep), sep) == s
  {
    if s != [] {
      var rest := Split(s[1..], sep);
      JoinSplit(s[1..], sep);
      if s[0] != sep {
        var r := Split(s, sep);
        assert r[0] == [s[0]] + rest[0] && r[1..] == rest[1..];
        if |rest| > 1 {
          assert Join(rest, sep) == rest[0] + [sep] + Join(rest[1..], sep);
        }
      }
    }
  }

  lemma {:induction false} SplitJoin(pieces: seq<string>, sep: char)
    requires |pieces| >= 1
    requires forall i :: 0 <= i < |pieces| ==> sep !in pieces[i]
    ensures Split(Join(pieces, sep), sep) == pieces
    decreases |pieces|, |pieces[0]|
  {
    var p := pieces[0];
    if p == [] {
      if |pieces| > 1 {
        SplitJoin(pieces[1..], sep);
        assert Join(pieces, sep) == [sep] + Join(pieces[1..], sep);
      }
    } else {
      var shorter := [p[1..]] + pieces[1..];
      assert sep !in shorter[0];
      forall i | 0 <= i < |shorter| ensures sep !in shorter[i] {
        if i > 0 { assert shorter[i] == pieces[i]; }
      }
      SplitJoin(shorter, sep);
      assert shorter[1..] == pieces[1..];
      assert Join(pieces, sep) == [p[0]] + Join(shorter, sep);
      assert p[0] != sep;
      assert [p[0]] + p[1..] == p;
    }
  }

  /** Without the separator, `split` gives the string back as the only piece. */
  lemma SplitWithoutSep(s: string, sep: char)
    requires sep !in s
    ensures Split(s, sep) == [s]
  {
    SplitJoin([s], sep);
  }

  /** Python's prefix slice `s[:n]`; a negative `n` counts from the end. */
  function Prefix<T>(s: seq<T>, n: int): (r: seq<T>)
    ensures |r| <= |s| && r == s[..|r|]
    ensures n >= 0 ==> |r| == if n < |s| then n else |s|
    ensures n < 0 ==> |r| == if |s| + n > 0 then |s| + n else 0
  {
    if n >= 0 then (if n < |s| then s[..n] else s)
    else if |s| + n > 0 then s[..|s| + n] else []
  }

  /** `[p.strip() for p in pieces if p.strip()]`: the pieces that are not
      blank, each stripped, in order. */
  function Trimmed(pieces: seq<string>): (r: seq<string>)
    ensures |r| <= |pieces|
    ensures forall i :: 0 <= i < |r| ==> r[i] != [] && Strip(r[i]) == r[i]
  {
    if pieces == [] then []
    else
      var t := Strip(pieces[0]);
      StripIdempotent(pieces[0]);
      (if t != [] then [t] else []) + Trimmed(pieces[1..])
  }

  lemma {:induction false} TrimmedOfClean(pieces: seq<string>)
    requires forall i :: 0 <= i < |pieces| ==> pieces[i] != [] && Strip(pieces[i]) == pieces[i]
    ensures Trimmed(pieces) == pieces
  {
    if pieces != [] {
      TrimmedOfClean(pieces[1..]);
    }
  }

  /** Stripping and dropping blanks a second time changes nothing. */
  lemma TrimmedIdempotent(pieces: seq<string>)
    ensures Trimmed(Trimmed(pieces)) == Trimmed(pieces)
  {
    TrimmedOfClean(Trimmed(pieces));
  }

  /** Every kept piece is the strip of an input piece, and the strip of
      every non-blank input piece is kept. */
  lemma {:induction false} TrimmedMembers(pieces: seq<string>)
    ensures forall t :: t in Trimmed(pieces) ==> exists i :: 0 <= i < |pieces| && Strip(pieces[i]) == t
    ensures forall i :: 0 <= i < |pieces| && Strip(pieces[i]) != [] ==> Strip(pieces[i]) in Trimmed(pieces)
  {
    if pieces != [] {
      TrimmedMembers(pieces[1..]);
      forall t | t in Trimmed(pieces)
        ensures exists i :: 0 <= i < |pieces| && Strip(pieces[i]) == t
      {
        if t != Strip(pieces[0]) {
          assert t in Trimmed(pieces[1..]);
          var i :| 0 <= i < |pieces[1..]| && Strip(pieces[1..][i]) == t;
          assert pieces[i + 1] == pieces[1..][i];
        }
      }
      forall i | 0 <= i < |pieces| && Strip(pieces[i]) != []
        ensures Strip(pieces[i]) in Trimmed(pieces)
      {
        if i > 0 {
          assert pieces[i] == pieces[1..][i - 1];
        }
      }
    }
  }

  /** Concatenation is associative; stated generically so that proofs about
      sequences of large elements need not compare them element by element. */
  lemma AppendAssoc<T>(a: seq<T>, b: seq<T>, c: seq<T>)
    ensures (a + b) + c == a + (b + c)
  {
  }

  /** A Python loop that extends one output list with each element's
      contribution, in order. */
  function FlatMap<T, U>(xs: seq<T>, f: T -> seq<U>): seq<U> {
    if xs == [] then [] else f(xs[0]) + FlatMap(xs[1..], f)
  }

  lemma {:induction false} FlatMapAppend<T, U>(a: seq<T>, b: seq<T>, f: T -> seq<U>)
    ensures FlatMap(a + b, f) == FlatMap(a, f) + FlatMap(b, f)
  {
    if a == [] {
      assert a + b == b;
    } else {
      FlatMapAppend(a[1..], b, f);
      assert (a + b)[0] == a[0];
      assert (a + b)[1..] == a[1..] + b;
      AppendAssoc(f(a[0]), FlatMap(a[1..], f), FlatMap(b, f));
    }
  }

  /** Everything produced comes from some element's contribution. */
  lemma {:induction false} FlatMapMembers<T, U>(xs: seq<T>, f: T -> seq<U>, u: U)
    requires u in FlatMap(xs, f)
    ensures exists i :: 0 <= i < |xs| && u in f(xs[i])
  {
    if u !in f(xs[0]) {
      FlatMapMembers(xs[1..], f, u);
      var i :| 0 <= i < |xs[1..]| && u in f(xs[1..][i]);
      assert xs[i + 1] == xs[1..][i];
    }
  }

  /** Contributions of at most `k` each add up to at most `k` per element. */
  lemma {:induction false} FlatMapBound<T, U>(xs: seq<T>, f: T -> seq<U>, k: nat)
    requires forall i :: 0 <= i < |xs| ==> |f(xs[i])| <= k
    ensures |FlatMap(xs, f)| <= k * |xs|
  {
    if xs != [] {
      assert forall i :: 0 <= i < |xs[1..]| ==> xs[1..][i] == xs[i + 1];
      FlatMapBound(xs[1..], f, k);
    }
  }

  // ---------------------------------------------------------------------------
  // Decimal literals, as accepted by `int(str)` and `float(str)`.

  predicate IsDigit(c: char) { '0' <= c <= '9' }

  predicate AllDigits(s: string) {
    forall i :: 0 <= i < |s| ==> IsDigit(s[i])
  }

  function DigitValue(c: char): nat
    requires IsDigit(c)
  {
    c as int - '0' as int
  }

  function DigitChar(d: nat): (c: char)
    requires d < 10
    ensures IsDigit(c) && DigitValue(c) == d
  {
    ('0' as int + d) as char
  }

  /** The value of a run of decimal digits, most significant first. */
  function DigitsValue(s: string): nat
    requires AllDigits(s)
  {
    if s == [] then 0 else DigitsValue(s[..|s| - 1]) * 10 + DigitValue(s[|s| - 1])
  }

  function Pow10(n: nat): (r: nat)
    ensures r >= 1
  {
    if n == 0 then 1 else 10 * Pow10(n - 1)
  }

  /** The shortest decimal rendering of a natural number, as `str(n)`. */
  function ShowNat(n: nat): (r: string)
    ensures r != [] && AllDigits(r)
    ensures |r| > 1 ==> r[0] != '0'
  {
    if n < 10 then [DigitChar(n)] else ShowNat(n / 10) + [DigitChar(n % 10)]
  }

  /** `str(i)` for a Python int. */
  function ShowInt(i: int): string {
    if i < 0 then "-" + ShowNat(-i) else ShowNat(i)
  }

  lemma {:induction false} DigitsShowNat(n: nat)
    ensures DigitsValue(ShowNat(n)) == n
  {
    if n >= 10 {
      DigitsShowNat(n / 10);
      var s := ShowNat(n);
      assert s[..|s| - 1] == ShowNat(n / 10);
    }
  }

  /** `int(s)` on a string: optional sign and a non-empty digit run, between
      whitespace; `None` stands for the `ValueError` Python raises. */
  function ParseInt(s: string): Option<int> {
    var t := Strip(s);
    if t != [] && (t[0] == '+' || t[0] == '-') then
      var body := t[1..];
      if body != [] && AllDigits(body) then
        Some(if t[0] == '-' then -(DigitsValue(body) as int) else DigitsValue(body))
      else None
    else if t != [] && AllDigits(t) then Some(DigitsValue(t))
    else None
  }

  /** The index of the first `.` in `s`, or `|s|` when there is none. */
  function DotIndex(s: string): (k: nat)
    ensures k <= |s|
    ensures forall i :: 0 <= i < k ==> s[i] != '.'
    ensures k < |s| ==> s[k] == '.'
  {
    if s == [] then 0 else if s[0] == '.' then 0 else 1 + DotIndex(s[1..])
  }

  /** The unsigned decimal `digits[.digits]`, `.digits` or `digits.`. */
  function ParseUnsignedDecimal(body: string): Option<real> {
    var k := DotIndex(body);
    var whole := body[..k];
    var frac := if k < |body| then body[k + 1..] else [];
    if AllDigits(whole) && AllDigits(frac) && |whole| + |frac| > 0 then
      Some(DigitsValue(whole) as real + DigitsValue(frac) as real / Pow10(|frac|) as real)
    else None
  }

  /** `float(s)` on a string, for plain decimal literals; `None` stands for
      the `ValueError` Python raises. */
  function ParseFloat(s: string): Option<real> {
    var t := Strip(s);
    if t != [] && (t[0] == '+' || t[0] == '-') then
      match ParseUnsignedDecimal(t[1..])
      case Some(v) => Some(if t[0] == '-' then -v else v)
      case None => None
    else ParseUnsignedDecimal(t)
  }

  /** `int(str(i)) == i`. */
  lemma ParseShowInt(i: int)
    ensures ParseInt(ShowInt(i)) == Some(i)
  {
    var d := ShowNat(if i < 0 then -i else i);
    DigitsShowNat(if i < 0 then -i else i);
    assert !IsSpace(d[0]) && !IsSpace(d[|d| - 1]);
    if i < 0 {
      var s := "-" + d;
      assert s[|s| - 1] == d[|d| - 1];
      StripUnchanged(s);
      assert s[1..] == d;
    } else {
      StripUnchanged(d);
    }
  }

  lemma DotIndexOfDigits(s: string)
    requires AllDigits(s)
    ensures DotIndex(s) == |s|
  {
    if s != [] {
      assert s[0] != '.';
      DotIndexOfDigits(s[1..]);
    }
  }

  /** Whatever `int(s)` accepts, `float(s)` accepts with the same value. */
  lemma ParseIntAgreesWithFloat(s: string)
    requires ParseInt(s).Some?
    ensures ParseFloat(s) == Some(ParseInt(s).value as real)
  {
    var t := Strip(s);
    if t[0] == '+' || t[0] == '-' {
      DotIndexOfDigits(t[1..]);
      assert t[1..][..|t[1..]|] == t[1..];
    } else {
      DotIndexOfDigits(t);
      assert t[..|t|] == t;
    }
  }
}
