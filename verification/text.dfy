/** The two pieces of Python text handling the server relies on:
    `str.strip()` with no argument, and `str(n)` for a non-negative int. */
module Text {

  /** The characters Python's `str.strip()` removes: those for which `str.isspace()` holds. */
  const Whitespace: set<char> :=
    { '\t', '\n', '\U{0B}', '\U{0C}', '\r', '\U{1C}', '\U{1D}', '\U{1E}', '\U{1F}', ' ',
      '\U{85}', '\U{A0}', '\U{1680}', '\U{2000}', '\U{2001}', '\U{2002}', '\U{2003}',
      '\U{2004}', '\U{2005}', '\U{2006}', '\U{2007}', '\U{2008}', '\U{2009}', '\U{200A}',
      '\U{2028}', '\U{2029}', '\U{202F}', '\U{205F}', '\U{3000}' }

  predicate IsSpace(c: char)
  {
    c in Whitespace
  }

  /** Letters are never whitespace. */
  lemma LetterIsNotSpace(c: char)
    requires 'a' <= c <= 'z' || 'A' <= c <= 'Z'
    ensures !IsSpace(c)
  {
  }

  predicate AllSpace(s: string)
  {
    forall i :: 0 <= i < |s| ==> IsSpace(s[i])
  }

  /** Neither end of `s` is whitespace: nothing `strip()` could remove. */
  predicate IsStripped(s: string)
  {
    |s| == 0 || (!IsSpace(s[0]) && !IsSpace(s[|s| - 1]))
  }

  /** Python's `s.strip()`: drop whitespace from the front while there is some, then from
      the back. Its properties are the lemmas below. */
  function Strip(s: string): string
    decreases |s|
  {
    if |s| > 0 && IsSpace(s[0]) then Strip(s[1..])
    else if |s| > 0 && IsSpace(s[|s| - 1]) then Strip(s[..|s| - 1])
    else s
  }

  /** `strip()` removes whitespace only, and leaves a string with nothing more to remove:
      `s` is its strip with whitespace on either side. */
  lemma {:induction false} StripParts(s: string) returns (p: string, q: string)
    ensures AllSpace(p) && AllSpace(q)
    ensures IsStripped(Strip(s))
    ensures s == p + Strip(s) + q
    decreases |s|
  {
    if |s| > 0 && IsSpace(s[0]) {
      var p', q' := StripParts(s[1..]);
      p, q := [s[0]] + p', q';
      assert s == [s[0]] + s[1..];
      SpaceConcat([s[0]], p');
    } else if |s| > 0 && IsSpace(s[|s| - 1]) {
      var p', q' := StripParts(s[..|s| - 1]);
      p, q := p', q' + [s[|s| - 1]];
      assert s == s[..|s| - 1] + [s[|s| - 1]];
      SpaceConcat(q', [s[|s| - 1]]);
    } else {
      p, q := [], [];
      assert s == [] + s + [];
    }
  }

  /** The strip is the only stripped middle: any split of a string into whitespace, a stripped
      middle and whitespace has that middle as its strip. */
  lemma {:induction false} StripUnique(a: string, w: string, b: string)
    requires AllSpace(a) && AllSpace(b) && IsStripped(w)
    ensures Strip(a + w + b) == w
    decreases |a| + |b|
  {
    var s := a + w + b;
    if |a| > 0 {
      assert s[0] == a[0];
      assert s[1..] == a[1..] + w + b;
      StripUnique(a[1..], w, b);
    } else if |w| == 0 && |b| > 0 {
      assert s == b;
      assert s[1..] == [] + [] + b[1..];
      StripUnique([], [], b[1..]);
    } else if |b| > 0 {
      assert s[0] == w[0];
      assert s[|s| - 1] == b[|b| - 1];
      assert s[..|s| - 1] == [] + w + b[..|b| - 1];
      StripUnique([], w, b[..|b| - 1]);
    } else {
      assert s == w;
    }
  }

  /** A string with nothing to strip is its own strip. */
  lemma StripOfStripped(s: string)
    requires IsStripped(s)
    ensures Strip(s) == s
  {
    assert [] + s + [] == s;
    StripUnique([], s, []);
  }

  /** Stripping twice is stripping once. */
  lemma StripIdempotent(s: string)
    ensures Strip(Strip(s)) == Strip(s)
  {
    var _, _ := StripParts(s);
    var w := Strip(s);
    assert [] + w + [] == w;
    StripUnique([], w, []);
  }

  /** Surrounding whitespace never matters: padding a string changes nothing after `strip()`. */
  lemma StripIgnoresPadding(a: string, s: string, b: string)
    requires AllSpace(a) && AllSpace(b)
    ensures Strip(a + s + b) == Strip(s)
  {
    var w := Strip(s);
    var p, q := StripParts(s);
    Regroup(a, p, w, q, b);
    SpaceConcat(a, p);
    SpaceConcat(q, b);
    StripUnique(a + p, w, q + b);
  }

  lemma SpaceConcat(x: string, y: string)
    requires AllSpace(x) && AllSpace(y)
    ensures AllSpace(x + y)
  {
    forall k | 0 <= k < |x + y| ensures IsSpace((x + y)[k]) {
      if k < |x| { assert (x + y)[k] == x[k]; } else { assert (x + y)[k] == y[k - |x|]; }
    }
  }

  lemma Regroup<T>(a: seq<T>, p: seq<T>, w: seq<T>, q: seq<T>, b: seq<T>)
    ensures a + (p + w + q) + b == (a + p) + w + (q + b)
  {
  }

  predicate IsDigit(c: char)
  {
    '0' <= c <= '9'
  }

  predicate AllDigits(s: string)
  {
    forall i :: 0 <= i < |s| ==> IsDigit(s[i])
  }

  function DigitChar(d: nat): (c: char)
    requires d < 10
    ensures IsDigit(c)
  {
    (48 + d) as char
  }

  /** Python's `str(n)` for `n >= 0`, as an f-string places a score into a message:
      decimal digits, most significant first, no leading zero. */
  function NatToString(n: nat): (r: string)
    ensures |r| >= 1 && AllDigits(r)
    ensures |r| > 1 ==> r[0] != '0'
    ensures r[0] == '0' <==> n == 0
    decreases n
  {
    if n < 10 then [DigitChar(n)]
    else NatToString(n / 10) + [DigitChar(n % 10)]
  }

  /** The value a string of decimal digits denotes (the reading side of `NatToString`). */
  function DecimalValue(s: string): nat
    requires AllDigits(s)
  {
    if |s| == 0 then 0
    else DecimalValue(s[..|s| - 1]) * 10 + (s[|s| - 1] as int - 48)
  }

  /** `NatToString` loses nothing: reading its digits back gives the number. */
  lemma {:induction false} NatToStringRoundTrip(n: nat)
    ensures DecimalValue(NatToString(n)) == n
    decreases n
  {
    var r := NatToString(n);
    if n >= 10 {
      NatToStringRoundTrip(n / 10);
      assert r[..|r| - 1] == NatToString(n / 10);
    }
  }

  /** Distinct scores print differently. */
  lemma NatToStringInjective(m: nat, n: nat)
    requires NatToString(m) == NatToString(n)
    ensures m == n
  {
    NatToStringRoundTrip(m);
    NatToStringRoundTrip(n);
  }
}
