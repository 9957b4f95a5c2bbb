/**
 * The toast and toaster id generator.  `#getUUIDv4` builds the string
 * template `10000000-1000-4000-8000-100000000000` (the array `[1e7]` coerced
 * to a string, followed by `-1e3`, `-4e3`, `-8e3`, `-1e11`) and replaces
 * every `0`, `1` and `8` in it, from left to right, by
 * `(c ^ (r & (15 >> (c / 4)))).toString(16)` for a fresh random byte `r`.
 * The 31 random bytes are an input of the model.
 */
module Uuid {

  /** `n` zeros. */
  function Zeros(n: nat): string
  {
    seq(n, _ => '0')
  }

  /** The decimal form of the number `d` times ten to the power `n`, for a digit `d`. */
  function Decimal(d: char, n: nat): string {
    [d] + Zeros(n)
  }

  /**
   * `[1e7] + -1e3 + -4e3 + -8e3 + -1e11`: the one-element array `[1e7]`
   * coerces to "10000000", so every `+` is a string concatenation and each
   * negative number contributes its minus sign.
   */
  function Template(): string {
    Decimal('1', 7) + "-" + Decimal('1', 3) + "-" + Decimal('4', 3) + "-" + Decimal('8', 3) + "-" + Decimal('1', 11)
  }

  /** Number of random bytes one id consumes: one per replaced template character. */
  const RandomBytes: nat := 31

  /** The characters matched by the regular expression `/[018]/g`. */
  predicate IsReplaced(c: char) {
    c == '0' || c == '1' || c == '8'
  }

  function Replaced(t: string): nat {
    if t == [] then 0 else (if IsReplaced(t[0]) then 1 else 0) + Replaced(t[1..])
  }

  /** The number the matched character coerces to. */
  function DigitValue(c: char): bv8
    requires IsReplaced(c)
  {
    if c == '0' then 0 else if c == '1' then 1 else 8
  }

  /**
   * `c ^ (r & (15 >> (c / 4)))`.  `c / 4` is 0, 0.25 or 2, truncated to an
   * integer shift of 0, 0 or 2, so the mask keeps four random bits for `0`
   * and `1` and two for `8`.
   */
  function Nibble(c: char, r: bv8): (n: bv8)
    requires IsReplaced(c)
    ensures n < 16
    ensures c == '8' ==> 8 <= n <= 11
  {
    var shift: nat := DigitValue(c) as nat / 4;
    DigitValue(c) ^ (r & ((15 as bv8) >> shift))
  }

  predicate IsLowerHex(c: char) {
    ('0' <= c <= '9') || ('a' <= c <= 'f')
  }

  /** `n.toString(16)` for a value below 16. */
  function Hex(n: bv8): (c: char)
    requires n < 16
    ensures IsLowerHex(c)
  {
    "0123456789abcdef"[n as int]
  }

  function HexValue(c: char): (n: bv8)
    requires IsLowerHex(c)
    ensures n < 16
  {
    if c <= '9' then (c as int - '0' as int) as bv8 else (c as int - 'a' as int + 10) as bv8
  }

  /** The characters a template character can turn into. */
  predicate Fits(t: char, c: char) {
    if t == '0' || t == '1' then IsLowerHex(c)
    else if t == '8' then c == '8' || c == '9' || c == 'a' || c == 'b'
    else c == t
  }

  /** `s` has the shape of template `t`, character by character. */
  predicate Matches(t: string, s: string) {
    |s| == |t| && forall i :: 0 <= i < |t| ==> Fits(t[i], s[i])
  }

  /** The `replace` call: one random byte per matched character, left to right. */
  function ReplaceDigits(t: string, rnd: seq<bv8>): (s: string)
    requires |rnd| == Replaced(t)
    ensures Matches(t, s)
  {
    if t == [] then []
    else if IsReplaced(t[0]) then [Hex(Nibble(t[0], rnd[0]))] + ReplaceDigits(t[1..], rnd[1..])
    else [t[0]] + ReplaceDigits(t[1..], rnd)
  }

  /** A byte for which template character `t` becomes the hex digit `c`. */
  function ByteFor(t: char, c: char): (r: bv8)
    requires IsReplaced(t) && Fits(t, c)
    ensures Hex(Nibble(t, r)) == c
  {
    var v := HexValue(c);
    assert Hex(v) == c;
    DigitValue(t) ^ v
  }

  /** Random bytes that make `ReplaceDigits(t, _)` produce the given `s`. */
  function Preimage(t: string, s: string): (rnd: seq<bv8>)
    requires Matches(t, s)
    ensures |rnd| == Replaced(t) && ReplaceDigits(t, rnd) == s
  {
    if t == [] then []
    else
      assert Matches(t[1..], s[1..]) by {
        forall i | 0 <= i < |t[1..]| ensures Fits(t[1..][i], s[1..][i]) {
          assert Fits(t[i + 1], s[i + 1]);
        }
      }
      if IsReplaced(t[0]) then [ByteFor(t[0], s[0])] + Preimage(t[1..], s[1..])
      else Preimage(t[1..], s[1..])
  }

  /** Character `c` at offset `i` agrees with the version 4 layout of section 4.4 of RFC 4122. */
  predicate UuidCharOk(i: int, c: char) {
    if i == 8 || i == 13 || i == 18 || i == 23 then c == '-'
    else if i == 14 then c == '4'
    else if i == 19 then c == '8' || c == '9' || c == 'a' || c == 'b'
    else IsLowerHex(c)
  }

  /**
   * A lowercase version 4 UUID: hyphens at offsets 8, 13, 18 and 23, the
   * version digit `4` at offset 14, the variant bits `10` (section 4.1.1 of
   * RFC 4122) making offset 19 one of `8`, `9`, `a`, `b`, and hex digits
   * elsewhere.
   */
  predicate IsUuidV4(s: string) {
    |s| == 36 && forall i :: 0 <= i < 36 ==> UuidCharOk(i, s[i])
  }

  /** The template character at each offset. */
  lemma TemplateAt(i: int)
    requires 0 <= i < 36
    ensures |Template()| == 36
    ensures Template()[i] == if i == 8 || i == 13 || i == 18 || i == 23 then '-'
                             else if i == 14 then '4'
                             else if i == 19 then '8'
                             else if i == 0 || i == 9 || i == 24 then '1'
                             else '0'
  {
  }

  /** The template's own layout. */
  lemma TemplateLayout()
    ensures |Template()| == 36 && Replaced(Template()) == RandomBytes
    ensures forall i :: 0 <= i < 36 ==> Fits(Template()[i], Template()[i])
    ensures forall s :: Matches(Template(), s) <==> IsUuidV4(s)
  {
    ReplacedTemplate();
    forall s ensures Matches(Template(), s) <==> IsUuidV4(s) {
      if |s| == 36 {
        forall i | 0 <= i < 36 ensures Fits(Template()[i], s[i]) == UuidCharOk(i, s[i]) {
          TemplateAt(i);
        }
      }
    }
  }

  lemma {:induction false} ReplacedConcat(a: string, b: string)
    ensures Replaced(a + b) == Replaced(a) + Replaced(b)
  {
    if a != [] {
      ReplacedConcat(a[1..], b);
      assert (a + b)[0] == a[0] && (a + b)[1..] == a[1..] + b;
    } else {
      assert a + b == b;
    }
  }

  lemma {:induction false} ReplacedZeros(n: nat)
    ensures Replaced(Zeros(n)) == n
  {
    if n > 0 {
      ReplacedZeros(n - 1);
      assert Zeros(n)[1..] == Zeros(n - 1);
    }
  }

  /** A number's decimal form contributes one replaced character per digit, except `4`. */
  lemma ReplacedDecimal(d: char, n: nat)
    ensures Replaced(Decimal(d, n)) == n + (if IsReplaced(d) then 1 else 0)
  {
    ReplacedZeros(n);
    ReplacedConcat([d], Zeros(n));
  }

  /** The template has 31 replaced characters. */
  lemma ReplacedTemplate()
    ensures Replaced(Template()) == RandomBytes
  {
    var a, b, c, d, e := Decimal('1', 7), Decimal('1', 3), Decimal('4', 3), Decimal('8', 3), Decimal('1', 11);
    ReplacedDecimal('1', 7);
    ReplacedDecimal('1', 3);
    ReplacedDecimal('4', 3);
    ReplacedDecimal('8', 3);
    ReplacedDecimal('1', 11);
    assert Replaced("-") == 0;
    ReplacedConcat(a, "-");
    ReplacedConcat(a + "-", b);
    ReplacedConcat(a + "-" + b, "-");
    ReplacedConcat(a + "-" + b + "-", c);
    ReplacedConcat(a + "-" + b + "-" + c, "-");
    ReplacedConcat(a + "-" + b + "-" + c + "-", d);
    ReplacedConcat(a + "-" + b + "-" + c + "-" + d, "-");
    ReplacedConcat(a + "-" + b + "-" + c + "-" + d + "-", e);
  }

  /** `#getUUIDv4`: the template filled in from 31 random bytes; always a version 4 UUID. */
  function GetUuidV4(rnd: seq<bv8>): (s: string)
    requires |rnd| == RandomBytes
    ensures IsUuidV4(s)
  {
    TemplateLayout();
    ReplaceDigits(Template(), rnd)
  }

  /** Every version 4 UUID is produced by some choice of random bytes. */
  lemma UuidV4Complete(s: string)
    requires IsUuidV4(s)
    ensures exists rnd :: |rnd| == RandomBytes && GetUuidV4(rnd) == s
  {
    TemplateLayout();
    var rnd := Preimage(Template(), s);
    assert GetUuidV4(rnd) == s;
  }

  /** `#getId(prefix)`: the prefix followed by a fresh UUID. */
  function GetId(prefix: string, rnd: seq<bv8>): (id: string)
    requires |rnd| == RandomBytes
    ensures |id| == |prefix| + 36 && id[..|prefix|] == prefix
    ensures IsUuidV4(id[|prefix|..])
  {
    var u := GetUuidV4(rnd);
    assert (prefix + u)[|prefix|..] == u;
    prefix + u
  }

  /**
   * A canonical array-index property key, the only kind of key that
   * `Object.keys` lists out of insertion order: the decimal form of an
   * integer below 2^32 - 1.
   */
  predicate IsArrayIndexKey(k: string) {
    && |k| > 0
    && (forall i :: 0 <= i < |k| ==> '0' <= k[i] <= '9')
    && (k[0] != '0' || |k| == 1)
    && DecimalValue(k) < 0xFFFF_FFFF
  }

  function DecimalValue(k: string): nat {
    if k == [] then 0
    else if '0' <= k[|k| - 1] <= '9' then DecimalValue(k[..|k| - 1]) * 10 + (k[|k| - 1] as int - '0' as int)
    else DecimalValue(k[..|k| - 1]) * 10
  }

  /** A generated id contains a hyphen, so it is never an array-index key. */
  lemma GeneratedIdIsNotIndexKey(prefix: string, rnd: seq<bv8>)
    requires |rnd| == RandomBytes
    ensures !IsArrayIndexKey(GetId(prefix, rnd))
  {
    var id := GetId(prefix, rnd);
    assert UuidCharOk(8, id[|prefix|..][8]);
    assert id[|prefix| + 8] == '-';
  }
}
