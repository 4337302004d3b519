/** Python value semantics the report code depends on: optional values,
    dictionary cells, truthiness, `float()`, `int()` and `safe_float`. */
module PyValues {
  import opened PyText

  datatype Option<+T> = None | Some(value: T) {
    function GetOr(default: T): T {
      match this
      case Some(v) => v
      case None => default
    }
  }

  /** One value of a row dictionary as read from SQLite or a CSV file:
      `None`, a number, or a string. A key that is absent from the
      dictionary is modelled by the key being absent from the map. */
  datatype Cell = Null | Num(x: real) | Str(s: string)

  type Row = map<string, Cell>

  /** File contents, as produced by the rendering and image libraries. */
  type Bytes = seq<bv8>

  /** `row.get(key, default)` */
  function Get(row: Row, key: string, default: Cell): Cell {
    if key in row then row[key] else default
  }

  /** Python truthiness: `None`, zero and the empty string are false. */
  predicate Truthy(c: Cell) {
    match c
    case Null => false
    case Num(x) => x != 0.0
    case Str(s) => s != ""
  }

  /** `a or b` on cells. */
  function Or(a: Cell, b: Cell): (r: Cell)
    ensures Truthy(a) ==> r == a
    ensures !Truthy(a) ==> r == b
  {
    if Truthy(a) then a else b
  }

  function DigitValue(c: char): nat
    requires IsDigit(c)
  {
    c as int - '0' as int
  }

  function DigitsValue(s: string): nat
    requires AllDigits(s)
  {
    if |s| == 0 then 0 else 10 * DigitsValue(s[..|s| - 1]) + DigitValue(s[|s| - 1])
  }

  function Pow10(n: nat): (p: nat)
    ensures p >= 1
  {
    if n == 0 then 1 else 10 * Pow10(n - 1)
  }

  predicate AllDigits(s: string) {
    forall i :: 0 <= i < |s| ==> IsDigit(s[i])
  }

  /** The value of the numeral `whole.frac`. */
  function DecimalValue(whole: string, frac: string): real
    requires AllDigits(whole) && AllDigits(frac)
  {
    DigitsValue(whole) as real + DigitsValue(frac) as real / Pow10(|frac|) as real
  }

  /** `n / 10^k`, the value `FixedText(n, k)` writes. */
  function Scaled(n: nat, k: nat): real {
    n as real / Pow10(k) as real
  }

  /** The value of an unsigned decimal numeral `d+`, `d+.d*` or `.d+`. */
  function UnsignedDecimal(s: string): (r: Option<real>)
    ensures r.Some? ==> r.value >= 0.0
    ensures r.Some? ==> forall i :: 0 <= i < |s| ==> IsDigit(s[i]) || s[i] == '.'
    ensures r.Some? ==> exists i :: 0 <= i < |s| && IsDigit(s[i])
  {
    if '.' in s then
      var i := FirstIndex(s, '.');
      var whole := s[..i];
      var frac := s[i + 1..];
      if AllDigits(whole) && AllDigits(frac) && |whole| + |frac| > 0 then
        assert forall k :: 0 <= k < |s| ==> IsDigit(s[k]) || s[k] == '.' by {
          forall k | 0 <= k < |s| ensures IsDigit(s[k]) || s[k] == '.' {
            if k < i {
              assert s[k] == whole[k];
            } else if k > i {
              assert s[k] == frac[k - i - 1];
            }
          }
        }
        assert IsDigit(s[0]) || IsDigit(s[i + 1]) by {
          if |whole| > 0 {
            assert s[0] == whole[0];
          } else {
            assert s[i + 1] == frac[0];
          }
        }
        Some(DecimalValue(whole, frac))
      else None
    else if AllDigits(s) && |s| > 0 then Some(DigitsValue(s) as real)
    else None
  }

  /** The text `float()` accepts, once stripped: digits, points, and a sign
      in front, with at least one digit. */
  predicate NumeralShape(t: string) {
    && (forall i :: 0 <= i < |t| ==> IsDigit(t[i]) || t[i] == '.' || (i == 0 && (t[i] == '+' || t[i] == '-')))
    && (exists i :: 0 <= i < |t| && IsDigit(t[i]))
  }

  /** `float(s)` for a string: surrounding whitespace, an optional sign and a
      plain decimal numeral. Any other character makes it raise. */
  function ParseFloat(s: string): (r: Option<real>)
    ensures r.Some? ==> NumeralShape(Strip(s))
    ensures r.Some? && |Strip(s)| > 0 && Strip(s)[0] == '-' ==> r.value <= 0.0
  {
    var t := Strip(s);
    if |t| > 0 && t[0] == '-' then
      match UnsignedDecimal(t[1..])
      case Some(v) =>
        SignedShape(t);
        Some(-v)
      case None => None
    else if |t| > 0 && t[0] == '+' then
      match UnsignedDecimal(t[1..])
      case Some(v) =>
        SignedShape(t);
        Some(v)
      case None => None
    else UnsignedDecimal(t)
  }

  lemma SignedShape(t: string)
    requires |t| > 0 && (t[0] == '-' || t[0] == '+') && UnsignedDecimal(t[1..]).Some?
    ensures NumeralShape(t)
  {
    var u := t[1..];
    assert forall k :: 1 <= k < |t| ==> t[k] == u[k - 1];
    var j :| 0 <= j < |u| && IsDigit(u[j]);
    assert IsDigit(t[j + 1]);
  }

  /** `int(s)` for a string: surrounding whitespace, an optional sign and digits. */
  function ParseInt(s: string): Option<int> {
    var t := Strip(s);
    if |t| > 1 && t[0] == '-' && AllDigits(t[1..]) then Some(-(DigitsValue(t[1..]) as int))
    else if |t| > 1 && t[0] == '+' && AllDigits(t[1..]) then Some(DigitsValue(t[1..]))
    else if |t| > 0 && AllDigits(t) then Some(DigitsValue(t))
    else None
  }

  /** `float(c)`; `None` where Python raises. */
  function FloatOf(c: Cell): Option<real> {
    match c
    case Null => None
    case Num(x) => Some(x)
    case Str(s) => ParseFloat(s)
  }

  /** `safe_float(c, default)`: `float(c)`, or the default where that raises. */
  function SafeFloat(c: Cell, default: real): real {
    FloatOf(c).GetOr(default)
  }

  /** `safe_float` reads a decimal written with `k` fraction digits as its
      value whatever the default, and falls back to the default for a NULL
      cell and for text that is not a numeral. */
  lemma SafeFloatReads(n: nat, k: nat, default: real, s: string)
    requires !NumeralShape(Strip(s))
    ensures SafeFloat(Str(FixedText(n, k)), default) == Scaled(n, k)
    ensures SafeFloat(Str("-" + FixedText(n, k)), default) == -Scaled(n, k)
    ensures SafeFloat(Null, default) == default && SafeFloat(Str(s), default) == default
  {
    ParseFloatFixed(n, k);
  }

  /** `int(x)` on a float: truncation toward zero. */
  function Trunc(x: real): (n: int)
    ensures x >= 0.0 ==> n as real <= x < n as real + 1.0
    ensures x < 0.0 ==> n as real - 1.0 < x <= n as real
  {
    if x >= 0.0 then x.Floor else -((-x).Floor)
  }

  function DigitChar(d: nat): (c: char)
    requires d < 10
    ensures IsDigit(c) && DigitValue(c) == d
  {
    ('0' as int + d) as char
  }

  /** `str(n)` for a natural number: its decimal digits, with no leading
      zero. */
  function NatText(n: nat): (s: string)
    ensures |s| > 0 && AllDigits(s)
    ensures |s| > 1 ==> s[0] != '0'
    ensures DigitsValue(s) == n
  {
    if n < 10 then [DigitChar(n)]
    else
      var s := NatText(n / 10) + [DigitChar(n % 10)];
      assert s[..|s| - 1] == NatText(n / 10);
      s
  }

  /** `m` written with exactly `k` digits, zero-padded on the left. */
  function PaddedDigits(m: nat, k: nat): (s: string)
    requires m < Pow10(k)
    ensures |s| == k && AllDigits(s)
    ensures DigitsValue(s) == m
  {
    if k == 0 then ""
    else
      var s := PaddedDigits(m / 10, k - 1) + [DigitChar(m % 10)];
      assert s[..|s| - 1] == PaddedDigits(m / 10, k - 1);
      s
  }

  /** `n / 10^k` written with `k` decimals, as `f"{x:.{k}f}"` prints it. */
  function FixedText(n: nat, k: nat): string {
    var p := Pow10(k);
    if k == 0 then NatText(n) else NatText(Quot(n, p)) + "." + PaddedDigits(Rem(n, p), k)
  }

  function Quot(n: nat, p: nat): nat
    requires p > 0
  {
    n / p
  }

  function Rem(n: nat, p: nat): (r: nat)
    requires p > 0
    ensures r < p
  {
    n % p
  }

  /** `float()` reads back every number written with a fixed count of
      decimals, with or without a minus sign. */
  lemma ParseFloatFixed(n: nat, k: nat)
    ensures ParseFloat(FixedText(n, k)) == Some(Scaled(n, k))
    ensures ParseFloat("-" + FixedText(n, k)) == Some(-Scaled(n, k))
  {
    var t := FixedText(n, k);
    FixedTextValue(n, k);
    SignedValue(t, Scaled(n, k));
  }

  /** A numeral that starts and ends with a digit and has the unsigned value
      `v` parses as `v`, and with a minus sign in front as `-v`. */
  lemma SignedValue(t: string, v: real)
    requires |t| > 0 && IsDigit(t[0]) && IsDigit(t[|t| - 1])
    requires UnsignedDecimal(t) == Some(v)
    ensures ParseFloat(t) == Some(v) && ParseFloat("-" + t) == Some(-v)
  {
    PlainValue(t, v);
    NegatedValue(t, v);
  }

  lemma PlainValue(t: string, v: real)
    requires |t| > 0 && IsDigit(t[0]) && IsDigit(t[|t| - 1])
    requires UnsignedDecimal(t) == Some(v)
    ensures ParseFloat(t) == Some(v)
  {
    StripKeeps(t);
    ParseFloatUnsigned(t);
  }

  lemma NegatedValue(t: string, v: real)
    requires |t| > 0 && IsDigit(t[0]) && IsDigit(t[|t| - 1])
    requires UnsignedDecimal(t) == Some(v)
    ensures ParseFloat("-" + t) == Some(-v)
  {
    var m := "-" + t;
    assert m[1..] == t;
    StripKeeps(m);
  }

  lemma FixedTextValue(n: nat, k: nat)
    ensures |FixedText(n, k)| > 0 && IsDigit(FixedText(n, k)[0])
    ensures IsDigit(FixedText(n, k)[|FixedText(n, k)| - 1])
    ensures UnsignedDecimal(FixedText(n, k)) == Some(Scaled(n, k))
  {
    if k == 0 {
      WholeDecimal(NatText(n));
    } else {
      var p := Pow10(k);
      var w := NatText(Quot(n, p));
      var f := PaddedDigits(Rem(n, p), k);
      assert FixedText(n, k) == w + "." + f;
      DecimalOfParts(w, f);
      FixedValue(n, k);
    }
  }

  lemma FixedValue(n: nat, k: nat)
    requires k > 0
    ensures DecimalValue(NatText(Quot(n, Pow10(k))), PaddedDigits(Rem(n, Pow10(k)), k)) == Scaled(n, k)
  {
    var p := Pow10(k);
    var f := PaddedDigits(Rem(n, p), k);
    assert DigitsValue(NatText(Quot(n, p))) == Quot(n, p);
    assert DigitsValue(f) == Rem(n, p) && |f| == k;
    DivModReal(n, p);
  }

  lemma WholeDecimal(w: string)
    requires |w| > 0 && AllDigits(w)
    ensures UnsignedDecimal(w) == Some(DigitsValue(w) as real)
  {
    assert '.' !in w by {
      assert forall j :: 0 <= j < |w| ==> IsDigit(w[j]);
    }
  }

  /** A whole part, a point and a fraction part parse as the whole part
      plus the fraction's digits over the matching power of ten. */
  lemma DecimalOfParts(w: string, f: string)
    requires |w| > 0 && AllDigits(w) && AllDigits(f)
    ensures UnsignedDecimal(w + "." + f) == Some(DecimalValue(w, f))
  {
    var t := w + "." + f;
    assert t[|w|] == '.';
    assert '.' !in w by {
      assert forall j :: 0 <= j < |w| ==> IsDigit(w[j]);
    }
    assert t[..|w|] == w;
    var i := FirstIndex(t, '.');
    assert i == |w|;
    assert t[i + 1..] == f;
  }

  lemma DivModReal(n: nat, p: nat)
    requires p > 0
    ensures Quot(n, p) as real + Rem(n, p) as real / p as real == n as real / p as real
  {
    var q := n / p;
    var r := n % p;
    assert n == q * p + r;
    assert (q * p) as real == q as real * p as real;
  }

  /** `int()` reads back `str(n)` and `str(-n)`. */
  lemma ParseIntNatText(n: nat)
    ensures ParseInt(NatText(n)) == Some(n)
    ensures ParseInt("-" + NatText(n)) == Some(-(n as int))
  {
    var t := NatText(n);
    assert t[0] != '-' && t[0] != '+' && t[0] != ' ';
    assert IsDigit(t[|t| - 1]);
    StripKeeps(t);
    var m := "-" + t;
    assert m[1..] == t;
    StripKeeps(m);
  }

  lemma TruncOfInt(n: int)
    ensures Trunc(n as real) == n
  {
  }

  lemma ParseFloatExample()
    ensures ParseFloat(" 91 ") == Some(91.0)
  {
    StripNinetyOne();
    NinetyOne();
    ParseFloatUnsigned(" 91 ");
  }

  /** A numeral without a sign parses as its unsigned value. */
  lemma ParseFloatUnsigned(s: string)
    requires |Strip(s)| > 0 && Strip(s)[0] != '-' && Strip(s)[0] != '+'
    ensures ParseFloat(s) == UnsignedDecimal(Strip(s))
  {
  }

  lemma StripNinetyOne()
    ensures Strip(" 91 ") == "91"
  {
    assert LStrip(" 91 ") == LStrip("91 ") == "91 ";
    assert RStrip("91 ") == RStrip("91") == "91";
  }

  lemma NinetyOne()
    ensures UnsignedDecimal("91") == Some(91.0)
  {
    assert "91"[..1] == "9";
    assert "9"[..0] == "";
    assert DigitsValue("9") == 9;
  }

  lemma ParseIntRejectsFraction()
    ensures ParseInt("90.5") == None
  {
    var t := "90.5";
    assert Strip(t) == t by {
      StripKeeps(t);
    }
    assert !AllDigits(t) by {
      assert !IsDigit(t[2]);
    }
    assert t[0] == '9';
  }
}
