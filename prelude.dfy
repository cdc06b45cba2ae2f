/**
 * Shared vocabulary for the model: fixed-width integers, bytes, the Option and
 * Result wrappers, decimal formatting as Rust's `{}` prints an unsigned integer,
 * and the lexicographic order Rust's `Ord` gives byte vectors (the order a
 * `BTreeMap<Vec<u8>, _>` or a sled tree iterates in).
 */
module Prelude {

  type Byte = b: int | 0 <= b < 0x100
  type U8 = x: int | 0 <= x < 0x100
  type U16 = x: int | 0 <= x < 0x1_0000
  type U32 = x: int | 0 <= x < 0x1_0000_0000
  type U64 = x: int | 0 <= x < 0x1_0000_0000_0000_0000
  type U128 = x: int | 0 <= x < 0x1_0000_0000_0000_0000_0000_0000_0000_0000

  const U16_LIMIT: int := 0x1_0000
  const U32_LIMIT: int := 0x1_0000_0000
  const U64_LIMIT: int := 0x1_0000_0000_0000_0000
  const U128_LIMIT: int := 0x1_0000_0000_0000_0000_0000_0000_0000_0000

  datatype Option<T> = None | Some(value: T)

  datatype Result<T, E> = Ok(value: T) | Err(error: E)

  // ---------------------------------------------------------------------------
  // Decimal text, as `format!("{}", n)` writes an unsigned integer.
  // ---------------------------------------------------------------------------

  function DigitChar(d: nat): (c: char)
    requires d < 10
    ensures '0' <= c <= '9' && c as int - '0' as int == d
  {
    ('0' as int + d) as char
  }

  predicate IsDigitChar(c: char) { '0' <= c <= '9' }

  /** The value a string of decimal digits denotes, read most significant first. */
  function DigitCharsValue(s: string): nat
    requires forall i | 0 <= i < |s| :: IsDigitChar(s[i])
  {
    if s == [] then 0
    else
      assert IsDigitChar(s[|s| - 1]);
      DigitCharsValue(s[..|s| - 1]) * 10 + (s[|s| - 1] as int - '0' as int)
  }

  /** Shortest decimal representation of `n`: no sign, no leading zero. */
  function Decimal(n: nat): (s: string)
    ensures |s| >= 1
    ensures forall i | 0 <= i < |s| :: IsDigitChar(s[i])
    ensures DigitCharsValue(s) == n
    ensures |s| > 1 ==> s[0] != '0'
  {
    if n < 10 then [DigitChar(n)]
    else
      var s := Decimal(n / 10) + [DigitChar(n % 10)];
      assert s[..|s| - 1] == Decimal(n / 10);
      s
  }

  /** The bytes of an ASCII string, as `String::into_bytes` gives them. */
  function Ascii(s: string): (b: seq<Byte>)
    requires forall i | 0 <= i < |s| :: s[i] as int < 0x80
    ensures |b| == |s|
    ensures forall i | 0 <= i < |s| :: b[i] == s[i] as int
  {
    seq(|s|, i requires 0 <= i < |s| => s[i] as int)
  }

  /** An ASCII decimal digit as a byte. */
  predicate IsDigitByte(b: Byte) { 0x30 <= b <= 0x39 }

  predicate AllDigitBytes(s: seq<Byte>) { forall i | 0 <= i < |s| :: IsDigitByte(s[i]) }

  /** The value of a run of ASCII digit bytes, read most significant first. */
  function DigitBytesValue(s: seq<Byte>): nat
    requires AllDigitBytes(s)
  {
    if s == [] then 0
    else
      assert IsDigitByte(s[|s| - 1]);
      DigitBytesValue(s[..|s| - 1]) * 10 + (s[|s| - 1] - 0x30)
  }

  /** `format!("{}", n).into_bytes()`: the bytes of `Decimal(n)`. */
  function DecimalBytes(n: nat): (b: seq<Byte>)
    ensures |b| >= 1
    ensures AllDigitBytes(b) && DigitBytesValue(b) == n
    ensures |b| > 1 ==> b[0] != 0x30
  {
    if n < 10 then [0x30 + n]
    else
      var b := DecimalBytes(n / 10) + [0x30 + n % 10];
      assert b[..|b| - 1] == DecimalBytes(n / 10);
      b
  }

  /** The text after an optional leading `+`. */
  function Unsigned(s: string): string
  {
    if |s| > 0 && s[0] == '+' then s[1..] else s
  }

  /** `str::parse::<usize>` (64-bit): an optional `+`, then at least one decimal digit, with no overflow. */
  function ParseUsize(s: string): (r: Option<nat>)
    ensures r.Some? ==> r.value < 0x1_0000_0000_0000_0000
  {
    var digits := Unsigned(s);
    if digits == [] || exists i | 0 <= i < |digits| :: !IsDigitChar(digits[i]) then None
    else if DigitCharsValue(digits) >= 0x1_0000_0000_0000_0000 then None
    else Some(DigitCharsValue(digits))
  }

  /** Every `usize` written in decimal parses back to itself; text with a character other than a digit after the sign does not parse. */
  lemma ParseUsizeDecimal(n: nat, s: string)
    requires n < 0x1_0000_0000_0000_0000
    ensures ParseUsize(Decimal(n)) == Some(n)
    ensures (exists i | 0 <= i < |s| :: !IsDigitChar(s[i]) && !(i == 0 && s[i] == '+')) ==> ParseUsize(s).None?
  {
    var d := Decimal(n);
    assert IsDigitChar(d[0]);
    assert Unsigned(d) == d;
    if exists i | 0 <= i < |s| :: !IsDigitChar(s[i]) && !(i == 0 && s[i] == '+') {
      var i :| 0 <= i < |s| && !IsDigitChar(s[i]) && !(i == 0 && s[i] == '+');
      var digits := Unsigned(s);
      if |s| > 0 && s[0] == '+' {
        assert digits == s[1..] && digits[i - 1] == s[i];
      } else {
        assert digits == s && digits[i] == s[i];
      }
    }
  }

  // ---------------------------------------------------------------------------
  // Lexicographic order on byte strings (Rust's `Ord` for `[u8]`): a proper
  // prefix comes first, otherwise the first differing byte decides.
  // ---------------------------------------------------------------------------

  predicate LexLess(a: seq<Byte>, b: seq<Byte>)
    decreases |a|
  {
    if b == [] then false
    else if a == [] then true
    else if a[0] != b[0] then a[0] < b[0]
    else LexLess(a[1..], b[1..])
  }

  predicate LexLessEq(a: seq<Byte>, b: seq<Byte>) { a == b || LexLess(a, b) }

  lemma {:induction false} LexLessIrreflexive(a: seq<Byte>)
    ensures !LexLess(a, a)
  {
    if a != [] { LexLessIrreflexive(a[1..]); }
  }

  lemma {:induction false} LexLessTransitive(a: seq<Byte>, b: seq<Byte>, c: seq<Byte>)
    requires LexLess(a, b) && LexLess(b, c)
    ensures LexLess(a, c)
    decreases |a|
  {
    if a != [] && a[0] == b[0] && b[0] == c[0] {
      LexLessTransitive(a[1..], b[1..], c[1..]);
    }
  }

  lemma {:induction false} LexLessTotal(a: seq<Byte>, b: seq<Byte>)
    ensures a == b || LexLess(a, b) || LexLess(b, a)
    decreases |a|
  {
    if a != [] && b != [] && a[0] == b[0] {
      LexLessTotal(a[1..], b[1..]);
      if a[1..] == b[1..] {
        assert a == [a[0]] + a[1..] && b == [b[0]] + b[1..];
      }
    }
  }

  lemma LexLessAsymmetric(a: seq<Byte>, b: seq<Byte>)
    requires LexLess(a, b)
    ensures !LexLess(b, a) && a != b
  {
    if LexLess(b, a) {
      LexLessTransitive(a, b, a);
      LexLessIrreflexive(a);
    }
    if a == b { LexLessIrreflexive(a); }
  }

  predicate IsLexMin(k: seq<Byte>, s: set<seq<Byte>>)
  {
    k in s && forall k' | k' in s :: LexLessEq(k, k')
  }

  /** Every finite non-empty set of byte strings has a least element. */
  lemma {:induction false} LexMinExists(s: set<seq<Byte>>)
    requires s != {}
    ensures exists k :: IsLexMin(k, s)
    decreases |s|
  {
    var x :| x in s;
    var rest := s - {x};
    if rest == {} {
      assert s == {x};
      assert IsLexMin(x, s);
    } else {
      LexMinExists(rest);
      var m :| IsLexMin(m, rest);
      if LexLess(x, m) {
        forall k' | k' in s ensures LexLessEq(x, k') {
          if k' != x {
            assert k' in rest && LexLessEq(m, k');
            if m != k' { LexLessTransitive(x, m, k'); }
          }
        }
        assert IsLexMin(x, s);
      } else {
        LexLessTotal(x, m);
        assert IsLexMin(m, s);
      }
    }
  }

  /** The least element of a set is unique. */
  lemma LexMinUnique(a: seq<Byte>, b: seq<Byte>, s: set<seq<Byte>>)
    requires IsLexMin(a, s) && IsLexMin(b, s)
    ensures a == b
  {
    if a != b {
      assert LexLess(a, b) && LexLess(b, a);
      LexLessAsymmetric(a, b);
    }
  }

  /** Strictly ascending in the lexicographic order (hence without duplicates). */
  predicate LexSorted(keys: seq<seq<Byte>>)
  {
    forall i, j | 0 <= i < j < |keys| :: LexLess(keys[i], keys[j])
  }

  /** Two strictly ascending sequences with the same elements are equal. */
  lemma {:induction false} LexSortedUnique(a: seq<seq<Byte>>, b: seq<seq<Byte>>)
    requires LexSorted(a) && LexSorted(b)
    requires forall k :: k in a <==> k in b
    ensures a == b
    decreases |a|
  {
    if a != [] { assert a[0] in b; }
    if b != [] { assert b[0] in a; }
    if a == [] || b == [] {
      return;
    }
    var s := set k | k in a;
    assert IsLexMin(a[0], s) by {
      forall k | k in s ensures LexLessEq(a[0], k) {
        var i :| 0 <= i < |a| && a[i] == k;
        if i > 0 { assert LexLess(a[0], a[i]); }
      }
    }
    assert IsLexMin(b[0], s) by {
      forall k | k in s ensures LexLessEq(b[0], k) {
        assert k in b;
        var i :| 0 <= i < |b| && b[i] == k;
        if i > 0 { assert LexLess(b[0], b[i]); }
      }
    }
    LexMinUnique(a[0], b[0], s);
    forall k ensures k in a[1..] <==> k in b[1..] {
      if k in a[1..] {
        var i :| 1 <= i < |a| && a[i] == k;
        assert LexLess(a[0], k);
        LexLessIrreflexive(k);
        assert k in b && k != b[0];
        var j :| 0 <= j < |b| && b[j] == k;
        assert b[1..][j - 1] == k;
      }
      if k in b[1..] {
        var j :| 1 <= j < |b| && b[j] == k;
        assert LexLess(b[0], k);
        LexLessIrreflexive(k);
        assert k in a && k != a[0];
        var i :| 0 <= i < |a| && a[i] == k;
        assert a[1..][i - 1] == k;
      }
    }
    LexSortedUnique(a[1..], b[1..]);
    assert a == [a[0]] + a[1..] && b == [b[0]] + b[1..];
  }

  /**
   * The elements of a set of byte strings in ascending order, the order in which
   * a `BTreeSet<Vec<u8>>` or the keys of a `BTreeMap<Vec<u8>, _>` are iterated.
   */
  method SortedElements(s: set<seq<Byte>>) returns (keys: seq<seq<Byte>>)
    ensures LexSorted(keys)
    ensures forall k :: k in keys <==> k in s
    ensures |keys| == |s|
  {
    keys := [];
    var rest := s;
    while rest != {}
      invariant rest <= s
      invariant LexSorted(keys)
      invariant forall k :: k in keys <==> k in s && k !in rest
      invariant forall i, k | 0 <= i < |keys| && k in rest :: LexLess(keys[i], k)
      invariant |keys| + |rest| == |s|
      decreases |rest|
    {
      LexMinExists(rest);
      var m :| IsLexMin(m, rest);
      forall i, k | 0 <= i < |keys| && k in rest - {m} ensures LexLess(keys[i], k) { }
      forall k | k in rest - {m} ensures LexLess(m, k) { }
      keys := keys + [m];
      rest := rest - {m};
    }
  }
}
