/** The pieces of Go's `strings`, `strconv` and `sort` packages that the transcoder relies on,
    over strings of characters. Case mapping is ASCII-only: `strings.ToUpper`/`ToLower` also
    map non-ASCII letters, which this model does not cover. */
module Text {
  import opened Wrappers

  // ----- Case mapping (strings.ToUpper / strings.ToLower on ASCII) -----

  predicate IsLowerAscii(c: char) { 'a' <= c <= 'z' }

  predicate IsUpperAscii(c: char) { 'A' <= c <= 'Z' }

  function UpperChar(c: char): (r: char)
    ensures !IsLowerAscii(r)
    ensures IsLowerAscii(c) ==> r as int == c as int - 32
    ensures !IsLowerAscii(c) ==> r == c
  {
    if IsLowerAscii(c) then (c as int - 32) as char else c
  }

  function LowerChar(c: char): (r: char)
    ensures !IsUpperAscii(r)
    ensures IsUpperAscii(c) ==> r as int == c as int + 32
    ensures !IsUpperAscii(c) ==> r == c
  {
    if IsUpperAscii(c) then (c as int + 32) as char else c
  }

  /** strings.ToUpper: every character upper-cased, nothing else changes. */
  function ToUpper(s: string): (r: string)
    ensures |r| == |s|
    ensures forall i :: 0 <= i < |s| ==> r[i] == UpperChar(s[i])
  {
    if s == [] then [] else [UpperChar(s[0])] + ToUpper(s[1..])
  }

  /** strings.ToLower. */
  function ToLower(s: string): (r: string)
    ensures |r| == |s|
    ensures forall i :: 0 <= i < |s| ==> r[i] == LowerChar(s[i])
  {
    if s == [] then [] else [LowerChar(s[0])] + ToLower(s[1..])
  }

  /** Upper-casing distributes over concatenation, so a key path upper-cased at once equals the
      concatenation of its upper-cased segments. */
  lemma ToUpperAppend(a: string, b: string)
    ensures ToUpper(a + b) == ToUpper(a) + ToUpper(b)
  {
    var l, r := ToUpper(a + b), ToUpper(a) + ToUpper(b);
    assert |l| == |r|;
    forall i | 0 <= i < |l| ensures l[i] == r[i] {
      if i < |a| { assert (a + b)[i] == a[i]; } else { assert (a + b)[i] == b[i - |a|]; }
    }
  }

  /** Upper-casing twice is upper-casing once (the encoder upper-cases some keys twice). */
  lemma ToUpperIdempotent(s: string)
    ensures ToUpper(ToUpper(s)) == ToUpper(s)
  {
    var u := ToUpper(s);
    forall i | 0 <= i < |u| ensures ToUpper(u)[i] == u[i] {
      assert !IsLowerAscii(u[i]);
    }
  }

  // ----- Prefixes and the first `=` -----

  /** strings.HasPrefix(s, p). */
  predicate HasPrefix(s: string, p: string) { p <= s }

  /** strings.TrimPrefix(s, p): s without its leading p, or s itself when p is not a prefix. */
  function TrimPrefix(s: string, p: string): (r: string)
    ensures HasPrefix(s, p) ==> p + r == s
    ensures !HasPrefix(s, p) ==> r == s
  {
    if HasPrefix(s, p) then s[|p|..] else s
  }

  /** strings.Index(s, string(c)): the first position of c, or None for -1. */
  function IndexOf(s: string, c: char): (r: Option<nat>)
    ensures r.None? <==> c !in s
    ensures r.Some? ==> r.value < |s| && s[r.value] == c && c !in s[..r.value]
  {
    if s == [] then None
    else if s[0] == c then Some(0)
    else match IndexOf(s[1..], c)
      case None => None
      case Some(i) =>
        assert s[..i + 1] == [s[0]] + s[1..][..i];
        Some(i + 1)
  }

  /** An entry split at its first `=`: the key before it and the value after it, or None when the
      entry has no `=` (`strings.Index(e, "=") == -1`). */
  function SplitAtEquals(e: string): (r: Option<(string, string)>)
    ensures r.None? <==> '=' !in e
    ensures r.Some? ==> e == r.value.0 + "=" + r.value.1 && '=' !in r.value.0
  {
    match IndexOf(e, '=')
    case None => None
    case Some(i) =>
      assert e == e[..i] + "=" + e[i + 1..];
      Some((e[..i], e[i + 1..]))
  }

  // ----- Decimal integers (strconv.Itoa / strconv.Atoi on a 64-bit platform) -----

  const MinInt64: int := -0x8000_0000_0000_0000
  const MaxInt64: int := 0x7FFF_FFFF_FFFF_FFFF

  predicate IsDigit(c: char) { '0' <= c <= '9' }

  function DigitChar(d: nat): (c: char)
    requires d < 10
    ensures IsDigit(c) && c as int - '0' as int == d
  {
    ('0' as int + d) as char
  }

  function Pow10(n: nat): (r: nat)
    ensures r >= 1
  {
    if n == 0 then 1 else 10 * Pow10(n - 1)
  }

  /** The decimal digits of n, most significant first, without leading zeros. */
  function Digits(n: nat): (r: string)
    ensures 1 <= |r|
    ensures forall i :: 0 <= i < |r| ==> IsDigit(r[i])
    ensures n < Pow10(|r|)
    decreases n
  {
    if n < 10 then [DigitChar(n)] else Digits(n / 10) + [DigitChar(n % 10)]
  }

  /** strconv.Itoa: the decimal form, with a leading '-' for negative numbers. */
  function Itoa(i: int): (r: string)
  {
    if i < 0 then "-" + Digits(-i) else Digits(i)
  }

  /** The value of a string of decimal digits, or None if it is empty or holds a non-digit. */
  function ParseDigits(s: string): (r: Option<nat>)
    ensures r.Some? <==> |s| > 0 && forall i :: 0 <= i < |s| ==> IsDigit(s[i])
  {
    if s == [] then None
    else if !IsDigit(s[|s| - 1]) then None
    else if |s| == 1 then Some(s[|s| - 1] as int - '0' as int)
    else match ParseDigits(s[..|s| - 1])
      case None => None
      case Some(v) => Some(10 * v + (s[|s| - 1] as int - '0' as int))
  }

  datatype NumError = Syntax | Range

  /** strconv.Atoi with 64-bit `int`: an optional sign, then at least one decimal digit; a
      value outside the int64 range is a range error. */
  function Atoi(s: string): (r: Result<int, NumError>)
    ensures r.Ok? ==> MinInt64 <= r.value <= MaxInt64
  {
    var neg := |s| > 0 && s[0] == '-';
    var body := if |s| > 0 && (s[0] == '-' || s[0] == '+') then s[1..] else s;
    match ParseDigits(body)
    case None => Err(Syntax)
    case Some(n) =>
      var v: int := if neg then 0 - n else n;
      if v < MinInt64 || v > MaxInt64 then Err(Range) else Ok(v)
  }

  lemma {:induction false} ParseDigitsOfDigits(n: nat)
    ensures ParseDigits(Digits(n)) == Some(n)
    decreases n
  {
    if n >= 10 {
      var d := Digits(n);
      ParseDigitsOfDigits(n / 10);
      assert d[..|d| - 1] == Digits(n / 10);
    }
  }

  /** Atoi inverts Itoa on the int64 range: the decimal form written by the encoder parses back to
      the same number. */
  lemma AtoiItoa(i: int)
    requires MinInt64 <= i <= MaxInt64
    ensures Atoi(Itoa(i)) == Ok(i)
  {
    if i < 0 { AtoiNegative(-i); } else { AtoiPlain(i); }
  }

  lemma AtoiNegative(n: nat)
    requires 0 < n <= -MinInt64
    ensures Atoi("-" + Digits(n)) == Ok(-(n as int))
  {
    var s := "-" + Digits(n);
    assert s[0] == '-' && s[1..] == Digits(n);
    ParseDigitsOfDigits(n);
  }

  lemma AtoiPlain(n: nat)
    requires n <= MaxInt64
    ensures Atoi(Digits(n)) == Ok(n)
  {
    var s := Digits(n);
    assert IsDigit(s[0]);
    ParseDigitsOfDigits(n);
  }

  /** A decimal number written with at most L digits is below 10^L, so a bounded key length bounds
      the slice indices whose decimal form can appear in a key. */
  lemma DigitsBound(n: nat, len: nat)
    requires |Digits(n)| <= len
    ensures n < Pow10(len)
  {
    PowMonotone(|Digits(n)|, len);
  }

  lemma {:induction false} PowMonotone(a: nat, b: nat)
    requires a <= b
    ensures Pow10(a) <= Pow10(b)
    decreases b
  {
    if a < b { PowMonotone(a, b - 1); }
  }

  // ----- Byte-wise string order (sort.Strings) -----

  /** Go's `<` on strings: lexicographic on characters, a proper prefix first. */
  predicate Less(a: string, b: string)
  {
    if a == [] then b != []
    else if b == [] then false
    else if a[0] != b[0] then a[0] < b[0]
    else Less(a[1..], b[1..])
  }

  lemma {:induction false} LessIrreflexive(a: string)
    ensures !Less(a, a)
  {
    if a != [] { LessIrreflexive(a[1..]); }
  }

  lemma {:induction false} LessTransitive(a: string, b: string, c: string)
    requires Less(a, b) && Less(b, c)
    ensures Less(a, c)
  {
    if a != [] && b != [] && c != [] && a[0] == b[0] && b[0] == c[0] {
      LessTransitive(a[1..], b[1..], c[1..]);
    }
  }

  lemma {:induction false} LessTotal(a: string, b: string)
    requires a != b
    ensures Less(a, b) || Less(b, a)
  {
    if a != [] && b != [] && a[0] == b[0] {
      assert a == [a[0]] + a[1..] && b == [b[0]] + b[1..];
      LessTotal(a[1..], b[1..]);
    }
  }

  lemma LessAsymmetric(a: string, b: string)
    requires Less(a, b)
    ensures !Less(b, a)
  {
    if Less(b, a) {
      LessTransitive(a, b, a);
      LessIrreflexive(a);
    }
  }

  /** What sort.Strings yields for distinct keys: every element strictly before the next. */
  predicate StrictlySorted(s: seq<string>)
  {
    forall i, j :: 0 <= i < j < |s| ==> Less(s[i], s[j])
  }

  /** A set of strings has exactly one strictly sorted enumeration. */
  lemma {:induction false} SortedUnique(a: seq<string>, b: seq<string>)
    requires StrictlySorted(a) && StrictlySorted(b)
    requires forall x :: x in a <==> x in b
    ensures a == b
    decreases |a|
  {
    assert (a == []) == (b == []) by {
      if a != [] { assert a[0] in b; }
      if b != [] { assert b[0] in a; }
    }
    if a != [] {
      if a[0] != b[0] {
        assert a[0] in a && b[0] in b;
        var j :| 0 <= j < |a| && a[j] == b[0];
        var k :| 0 <= k < |b| && b[k] == a[0];
        assert Less(a[0], b[0]) && Less(b[0], a[0]);
        LessAsymmetric(a[0], b[0]);
      } else {
        forall x ensures x in a[1..] <==> x in b[1..] {
          if x in a[1..] {
            var j :| 1 <= j < |a| && a[j] == x;
            assert Less(a[0], x);
            if x == b[0] { LessIrreflexive(a[0]); }
            assert x in a && x in b;
            var k :| 0 <= k < |b| && b[k] == x;
            assert b[1..][k - 1] == x;
          }
          if x in b[1..] {
            var j :| 1 <= j < |b| && b[j] == x;
            assert Less(b[0], x);
            if x == a[0] { LessIrreflexive(b[0]); }
            assert x in b && x in a;
            var k :| 0 <= k < |a| && a[k] == x;
            assert a[1..][k - 1] == x;
          }
        }
        SortedUnique(a[1..], b[1..]);
      }
    }
  }

  /** One step of building the sorted key list: x placed among the sorted, distinct keys. */
  function InsertSorted(s: seq<string>, x: string): (r: seq<string>)
    requires StrictlySorted(s) && x !in s
    ensures StrictlySorted(r)
    ensures forall y :: y in r <==> y in s || y == x
    ensures |r| == |s| + 1
  {
    if s == [] then [x]
    else if Less(x, s[0]) then
      assert forall j :: 0 < j < |s| ==> Less(x, s[j]) by {
        forall j | 0 < j < |s| ensures Less(x, s[j]) { LessTransitive(x, s[0], s[j]); }
      }
      [x] + s
    else
      LessTotal(x, s[0]);
      var t := InsertSorted(s[1..], x);
      assert forall j :: 0 <= j < |t| ==> Less(s[0], t[j]) by {
        forall j | 0 <= j < |t| ensures Less(s[0], t[j]) {
          if t[j] != x { assert t[j] in t; assert t[j] in s[1..]; }
        }
      }
      [s[0]] + t
  }

  /** The keys of a set in strictly ascending order (what `sort.Strings` makes of them). */
  ghost function SortedKeys(s: set<string>): (r: seq<string>)
    ensures StrictlySorted(r)
    ensures forall k :: k in r <==> k in s
    decreases s
  {
    if s == {} then []
    else
      var x :| x in s;
      InsertSorted(SortedKeys(s - {x}), x)
  }

  /** A bound on the length of every string in s. */
  ghost function MaxLen(s: set<string>): (r: nat)
    ensures forall k :: k in s ==> |k| <= r
    decreases s
  {
    if s == {} then 0
    else
      var x :| x in s;
      var m := MaxLen(s - {x});
      if |x| > m then |x| else m
  }

  // ----- Prefixes of sequences -----

  /** One more element taken: the shorter prefix of the longer one, and the element appended. */
  lemma TakeStep<T>(s: seq<T>, n: nat)
    requires n < |s|
    ensures s[..n + 1][..n] == s[..n] && s[..n + 1] == s[..n] + [s[n]]
  {
  }

  lemma TakeAll<T>(s: seq<T>, n: nat)
    requires n == |s|
    ensures s[..n] == s
  {
  }

  /** Writing position i leaves the suffix after i as it was. */
  lemma DropUpdate<T>(s: seq<T>, t: seq<T>, i: nat, x: T)
    requires i < |s| == |t| && s[i..] == t[i..]
    ensures s[i] == t[i] && s[i := x][i + 1..] == t[i + 1..]
  {
    assert s[i] == s[i..][0];
    assert s[i + 1..] == s[i..][1..];
    assert t[i + 1..] == t[i..][1..];
  }
}
