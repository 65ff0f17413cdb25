/** Base-2 text as the MAIF decoder uses it: rendering a byte with `{:b}`,
    left-padding that text with '0' to eight characters, and reading a run of
    binary digits back with `u8::from_str_radix(_, 2)`. */
module Binary {

  /** An unsigned 8-bit value (Rust's `u8`). */
  type Byte = x: int | 0 <= x < 256

  datatype Option<T> = None | Some(value: T)

  function Pow2(n: nat): (p: nat)
    ensures p >= 1
  {
    if n == 0 then 1 else 2 * Pow2(n - 1)
  }

  predicate IsBit(c: char) { c == '0' || c == '1' }

  predicate AllBits(s: string) { forall i :: 0 <= i < |s| ==> IsBit(s[i]) }

  function BitValue(c: char): (d: nat)
    requires IsBit(c)
    ensures d < 2 && (d == 1 <==> c == '1')
  {
    if c == '1' then 1 else 0
  }

  function BitChar(d: nat): (c: char)
    requires d < 2
    ensures IsBit(c) && BitValue(c) == d
  {
    if d == 1 then '1' else '0'
  }

  /** The number a string of binary digits denotes, most significant digit
      first, accumulated left to right as `from_str_radix` does. */
  function Value(s: string): nat
    requires AllBits(s)
  {
    if s == [] then 0 else 2 * Value(s[..|s| - 1]) + BitValue(s[|s| - 1])
  }

  /** `format!("{:b}", n)`: the shortest binary numeral of `n`, "0" for zero. */
  function Format(n: nat): (s: string)
    ensures 1 <= |s| && AllBits(s)
    ensures Value(s) == n
    ensures n > 0 ==> s[0] == '1'
    ensures n == 0 ==> s == "0"
  {
    if n < 2 then [BitChar(n)]
    else
      var s := Format(n / 2) + [BitChar(n % 2)];
      assert s[..|s| - 1] == Format(n / 2);
      s
  }

  /** `k` copies of the character '0'. */
  function Zeros(k: nat): (z: string)
    ensures |z| == k && AllBits(z)
  {
    seq(k, _ => '0')
  }

  /** The text the padding loop leaves behind: `s` with '0' inserted in front
      until it is eight characters long; a longer text is left alone. */
  function Padded8(s: string): string
  {
    if |s| < 8 then Zeros(8 - |s|) + s else s
  }

  /** `u8::from_str_radix(s, 2)`: `None` stands for every `Err` (an empty
      text, a lone sign, a character other than '0' or '1', or a value above
      255). An unsigned parse accepts one leading '+'. */
  function ParseU8(s: string): (r: Option<Byte>)
    ensures r.Some? ==> (1 <= |s| &&
      var digits := if s[0] == '+' then s[1..] else s;
      1 <= |digits| && AllBits(digits) && r.value == Value(digits))
    ensures 1 <= |s| ==>
      var digits := if s[0] == '+' then s[1..] else s;
      1 <= |digits| && AllBits(digits) ==>
        r == if Value(digits) <= 255 then Some(Value(digits)) else None
  {
    if |s| == 0 then None
    else if s[0] == '+' then
      if |s| == 1 then None else ParseDigits(s[1..])
    else ParseDigits(s)
  }

  function ParseDigits(d: string): Option<Byte>
  {
    if AllBits(d) && Value(d) <= 255 then Some(Value(d)) else None
  }

  /** The padding loop at the top of the decoder's loop body: insert '0' at
      the front while the text is shorter than eight characters. */
  method PadWithZeros(s: string) returns (r: string)
    ensures r == Padded8(s)
    ensures |r| == if |s| < 8 then 8 else |s|
  {
    r := s;
    while |r| < 8
      invariant |s| <= |r|
      invariant |r| <= if |s| < 8 then 8 else |s|
      invariant r == Zeros(|r| - |s|) + s
      decreases 8 - |r|
    {
      r := ['0'] + r;
      assert r == Zeros(|r| - |s|) + s;
    }
    if |s| >= 8 {
      assert Zeros(0) + s == s;
    }
  }

  lemma {:induction false} ValueBound(s: string)
    requires AllBits(s)
    ensures Value(s) < Pow2(|s|)
  {
    if s != [] {
      ValueBound(s[..|s| - 1]);
    }
  }

  /** Reading the concatenation of two numerals: the first is shifted left by
      the length of the second. */
  lemma {:induction false} ValueConcat(a: string, b: string)
    requires AllBits(a) && AllBits(b)
    ensures AllBits(a + b)
    ensures Value(a + b) == Value(a) * Pow2(|b|) + Value(b)
  {
    var ab := a + b;
    assert AllBits(ab) by {
      forall i | 0 <= i < |ab| ensures IsBit(ab[i]) {
        if i < |a| { assert ab[i] == a[i]; } else { assert ab[i] == b[i - |a|]; }
      }
    }
    if b == [] {
      assert ab == a;
    } else {
      var b' := b[..|b| - 1];
      var c := b[|b| - 1];
      assert AllBits(b');
      assert ab == (a + b') + [c];
      ValueConcat(a, b');
      ValueSnoc(a + b', c);
      ValueSnoc(b', c);
      ShiftStep(Value(a), Pow2(|b'|), Value(b'), BitValue(c));
    }
  }

  lemma ValueSnoc(s: string, c: char)
    requires AllBits(s) && IsBit(c)
    ensures AllBits(s + [c]) && Value(s + [c]) == 2 * Value(s) + BitValue(c)
  {
    assert (s + [c])[..|s|] == s;
  }

  lemma ShiftStep(x: nat, p: nat, y: nat, d: nat)
    ensures 2 * (x * p + y) + d == x * (2 * p) + (2 * y + d)
  {
  }

  /** Leading zeros do not change what a numeral denotes. */
  lemma ValueLeadingZeros(k: nat, s: string)
    requires AllBits(s)
    ensures AllBits(Zeros(k) + s) && Value(Zeros(k) + s) == Value(s)
  {
    ZerosValue(k);
    ValueConcat(Zeros(k), s);
  }

  lemma {:induction false} ZerosValue(k: nat)
    ensures Value(Zeros(k)) == 0
  {
    if k > 0 {
      assert Zeros(k)[..k - 1] == Zeros(k - 1);
      ZerosValue(k - 1);
    }
  }

  /** A numeral whose value is below 2^k has at most k digits once it is
      written without leading zeros. */
  lemma {:induction false} FormatLength(n: nat, k: nat)
    requires 1 <= k && n < Pow2(k)
    ensures |Format(n)| <= k
  {
    if n >= 2 {
      FormatLength(n / 2, k - 1);
    }
  }

  /** Rendering a byte and padding it gives exactly eight binary digits that
      still read back as the byte. */
  lemma PaddedFormat(b: Byte)
    ensures |Padded8(Format(b))| == 8 && AllBits(Padded8(Format(b)))
    ensures Value(Padded8(Format(b))) == b
    ensures ParseU8(Padded8(Format(b))) == Some(b)
  {
    var f := Format(b);
    FormatLength(b, 8);
    ValueLeadingZeros(8 - |f|, f);
    ParseBits(Padded8(f));
  }

  /** A non-empty run of binary digits worth at most 255 parses to its value. */
  lemma ParseBits(p: string)
    requires |p| >= 1 && AllBits(p) && Value(p) <= 255
    ensures ParseU8(p) == Some(Value(p))
  {
    assert IsBit(p[0]);
  }

  /** The two fields the decoder cuts out of a padded byte: the first
      character is '1' exactly when the byte is at least 128, and the other
      seven parse as the byte modulo 128. */
  lemma PaddedFields(b: Byte)
    ensures |Padded8(Format(b))| == 8
    ensures Padded8(Format(b))[0] == '1' <==> b >= 128
    ensures ParseU8(Padded8(Format(b))[1..]) == Some(b % 128)
  {
    PaddedFormat(b);
    EightBitFields(Padded8(Format(b)));
  }

  /** An eight-digit numeral: the leading digit is the top bit and the other
      seven parse as the value modulo 128. */
  lemma EightBitFields(p: string)
    requires |p| == 8 && AllBits(p)
    ensures p[0] == '1' <==> Value(p) >= 128
    ensures ParseU8(p[1..]) == Some(Value(p) % 128)
  {
    var low := p[1..];
    ValueHead(p);
    ValueBound(low);
    Pow2Seven();
    assert Value(low) == Value(p) % 128;
    ParseBits(low);
  }

  lemma Pow2Seven()
    ensures Pow2(7) == 128
  {
    assert Pow2(1) == 2 && Pow2(2) == 4 && Pow2(3) == 8;
    assert Pow2(4) == 16 && Pow2(5) == 32 && Pow2(6) == 64;
  }

  /** Splitting off the leading digit of a numeral. */
  lemma ValueHead(p: string)
    requires AllBits(p) && |p| >= 1
    ensures AllBits(p[1..])
    ensures Value(p) == BitValue(p[0]) * Pow2(|p| - 1) + Value(p[1..])
  {
    var head, tail := [p[0]], p[1..];
    assert AllBits(head) by { assert IsBit(p[0]); }
    assert AllBits(tail) by {
      forall i | 0 <= i < |tail| ensures IsBit(tail[i]) { assert tail[i] == p[i + 1]; }
    }
    assert head + tail == p;
    ValueConcat(head, tail);
    ValueSingle(p[0]);
  }

  lemma ValueSingle(c: char)
    requires IsBit(c)
    ensures AllBits([c]) && Value([c]) == BitValue(c)
  {
    assert [c][..0] == [];
  }

}
