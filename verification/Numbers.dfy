// Reading and printing numbers: src/string.c with the limits of include/em/limits.h.
// A string is a sequence of bytes as characters.  Plain char is signed: bytes above 0x7F are below '0'.

module Numbers {
  const EM_MAXULONG: nat := 4294967295
  const EM_MAXLONG: nat := 2147483647
  const EM_MINLONG: int := -2147483648

  datatype Status = EM_SUCC | EM_EINVAL | EM_ETOOBIG | EM_ETOOSMALL

  // ---------- Characters ----------

  predicate IsSpace(c: char) {
    '\t' <= c <= '\r' || c == ' '
  }

  predicate IsXDigit(c: char) {
    '0' <= c <= '9' || 'A' <= c <= 'F' || 'a' <= c <= 'f'
  }

  predicate BelowZero(c: char) {
    c < '0' || c > 0x7F as char
  }

  /** em_hex_digit_to_val */
  function HexDigitToVal(c: char): nat {
    if c <= '9' then (c as int - '0' as int) % 16
    else if c <= 'F' then (c as int - 'A' as int + 10) % 16
    else (c as int - 'a' as int + 10) % 16
  }

  // ---------- What a string means ----------

  predicate IsDigit(c: char, base: nat) {
    if base == 16 then IsXDigit(c) else base <= 10 && '0' as int <= c as int < '0' as int + base
  }

  function Digit(c: char): (d: nat)
    requires IsXDigit(c)
    ensures d < 16
  {
    if c <= '9' then c as int - '0' as int
    else if c <= 'F' then c as int - 'A' as int + 10
    else c as int - 'a' as int + 10
  }

  const LOWER := "0123456789abcdef"
  const UPPER := "0123456789ABCDEF"

  /** The digits of base 16, in both cases, and those of a base up to 10. */
  lemma CharactersMean(c: char, base: nat)
    ensures IsDigit(c, 16) <==> c in LOWER || c in UPPER
    ensures base <= 10 ==> (IsDigit(c, base) <==> c in LOWER[..base])
  {
    if base <= 10 && IsDigit(c, base) {
      assert LOWER[..base][c as int - '0' as int] == c;
    }
    if IsXDigit(c) {
      assert c <= '9' ==> c == LOWER[c as int - '0' as int];
      assert 'A' <= c <= 'F' ==> c == UPPER[c as int - 'A' as int + 10];
      assert 'a' <= c ==> c == LOWER[c as int - 'a' as int + 10];
    }
  }

  /** And what each of them is worth. */
  lemma DigitValues(k: nat)
    requires k < 16
    ensures IsXDigit(LOWER[k]) && Digit(LOWER[k]) == k && HexDigitToVal(LOWER[k]) == k
    ensures IsXDigit(UPPER[k]) && Digit(UPPER[k]) == k && HexDigitToVal(UPPER[k]) == k
  {
  }

  function Trimmed(s: string): (t: string)
    ensures t == [] || !IsSpace(t[0])
  {
    if s != [] && IsSpace(s[0]) then Trimmed(s[1..]) else s
  }

  /** Only spaces are cut off, and all of them: the six characters that isspace() accepts. */
  lemma {:induction false} TrimmedMeans(s: string)
    ensures var t := Trimmed(s);
            && |t| <= |s| && t == s[|s| - |t|..]
            && (forall i :: 0 <= i < |s| - |t| ==> s[i] as int in {9, 10, 11, 12, 13, 32})
            && (t == [] || t[0] as int !in {9, 10, 11, 12, 13, 32})
  {
    if s != [] && IsSpace(s[0]) {
      TrimmedMeans(s[1..]);
      var n := |s| - |Trimmed(s)|;
      forall i | 0 <= i < n
        ensures s[i] as int in {9, 10, 11, 12, 13, 32}
      {
        assert i > 0 ==> s[i] == s[1..][i - 1];
      }
    }
  }

  /** The longest prefix of digits. */
  function DigitPrefix(s: string, base: nat): (d: string)
    ensures d <= s && AllDigits(d, base)
    ensures |d| < |s| ==> !IsDigit(s[|d|], base)
  {
    if s != [] && IsDigit(s[0], base) then [s[0]] + DigitPrefix(s[1..], base) else []
  }

  predicate AllDigits(s: string, base: nat) {
    forall i :: 0 <= i < |s| ==> IsDigit(s[i], base)
  }

  function Pow(b: nat, n: nat): nat {
    if n == 0 then 1 else b * Pow(b, n - 1)
  }

  /** The number that a string of digits stands for: each digit counts for a power of the base by its position. */
  function Number(s: string, base: nat): nat
    requires AllDigits(s, base)
  {
    if s == [] then 0 else Digit(s[0]) * Pow(base, |s| - 1) + Number(s[1..], base)
  }

  lemma Distribute(d: int, p: int, n: int, base: int)
    ensures d * (base * p) + n * base == (d * p + n) * base
  {
  }

  lemma NotLess(n: nat, base: nat)
    requires base > 0
    ensures n <= n * base
  {
  }

  /** Reading one more digit multiplies by the base and adds the digit. */
  lemma {:induction false} NumberAppend(s: string, c: char, base: nat)
    requires AllDigits(s, base) && IsDigit(c, base)
    ensures AllDigits(s + [c], base) && Number(s + [c], base) == Number(s, base) * base + Digit(c)
  {
    if s == [] {
      assert s + [c] == [c] && [c][1..] == [];
      assert Number([c], base) == Digit(c) * Pow(base, 0) + Number([], base);
    } else {
      var t := s[1..];
      NumberAppend(t, c, base);
      assert (s + [c])[1..] == t + [c];
      assert |s + [c]| - 1 == |t| + 1;
      Distribute(Digit(s[0]), Pow(base, |t|), Number(t, base), base);
    }
  }

  /** More digits never make the number smaller. */
  lemma {:induction false} NumberGrows(s: string, i: nat, base: nat)
    requires AllDigits(s, base) && i <= |s| && base > 0
    ensures Number(s[..i], base) <= Number(s, base)
    decreases |s| - i
  {
    if i == |s| {
      assert s[..i] == s;
    } else {
      NumberAppend(s[..i], s[i], base);
      assert s[..i + 1] == s[..i] + [s[i]];
      NotLess(Number(s[..i], base), base);
      NumberGrows(s, i + 1, base);
    }
  }

  // ---------- Reading ----------

  /** em_strltrim */
  method StrLTrim(str: string) returns (s: string)
    ensures s == Trimmed(str)
  {
    var p := 0;
    while p < |str| && IsSpace(str[p])
      invariant 0 <= p <= |str| && Trimmed(str[p..]) == Trimmed(str)
    {
      assert str[p..][1..] == str[p + 1..];
      p := p + 1;
    }
    s := str[p..];
  }

  /** One step of the two loops of em_strtoul3: add a digit, or saturate. */
  method AddDigit(value: nat, base: nat, c: nat) returns (tooBig: bool, out: nat)
    requires value <= EM_MAXULONG && base > 0 && c < base
    ensures tooBig <==> value * base + c > EM_MAXULONG
    ensures out == if tooBig then EM_MAXULONG else value * base + c
  {
    DivisionBounds(EM_MAXULONG, base, value);
    if value > EM_MAXULONG / base {
      return true, EM_MAXULONG;
    }
    out := value * base;
    if EM_MAXULONG - out < c {
      return true, EM_MAXULONG;
    }
    out := out + c;
    tooBig := false;
  }

  lemma DivisionBounds(x: nat, d: nat, v: nat)
    requires d > 0
    ensures v > x / d <==> v * d > x
  {
    var q, r := x / d, x % d;
    assert x == q * d + r;
    if v > q {
      assert v * d >= (q + 1) * d;
    } else {
      assert v * d <= q * d;
    }
  }

  lemma NumberEmpty(base: nat)
    ensures Number("", base) == 0
  {
  }

  lemma ReadStep(d: string, i: nat, base: nat)
    requires AllDigits(d, base) && i < |d| && (base <= 10 || base == 16)
    ensures Number(d[..i + 1], base) == Number(d[..i], base) * base + Digit(d[i])
    ensures Digit(d[i]) == (if base == 16 then HexDigitToVal(d[i]) else d[i] as int - '0' as int) < base
  {
    assert d[..i + 1] == d[..i] + [d[i]];
    NumberAppend(d[..i], d[i], base);
  }

  /** em_strtoul3.  The value is exact or saturated.  An unsupported base is reported as an invalid argument after
      the value was already overwritten, unlike what the documentation says. */
  method StrToUl3(str: string, value: nat, base: nat) returns (status: Status, out: nat)
    ensures var s := Trimmed(str);
            var d := DigitPrefix(s, base);
            if base > 10 && base != 16 then
              status == EM_EINVAL && out == if s == "" || s[0] < '0' || s[0] as int > 0x7F then value else 0
            else if d == "" then status == EM_EINVAL && out == value
            else if Number(d, base) <= EM_MAXULONG then status == EM_SUCC && out == Number(d, base)
            else status == EM_ETOOBIG && out == EM_MAXULONG
    ensures status == EM_EINVAL && out != value
            <==> var s := Trimmed(str);
                 base > 10 && base != 16 && s != "" && '0' as int <= s[0] as int <= 0x7F && value != 0
  {
    hide Number, HexDigitToVal, Digit;
    var s := StrLTrim(str);
    if |s| == 0 || BelowZero(s[0]) || (base <= 10 && s[0] as int > '0' as int - 1 + base)
       || (base == 16 && !IsXDigit(s[0]))
    {
      return EM_EINVAL, value;
    }
    out := 0;
    if base > 10 && base != 16 {
      return EM_EINVAL, out;
    }
    ghost var d := DigitPrefix(s, base);
    NumberEmpty(base);
    assert d[..0] == "";
    var i := 0;
    while i < |s|
      invariant 0 <= i <= |d| && out <= EM_MAXULONG && out == Number(d[..i], base)
    {
      if !IsDigit(s[i], base) {
        break;
      }
      ReadStep(d, i, base);
      var tooBig;
      tooBig, out := AddDigit(out, base, if base == 16 then HexDigitToVal(s[i]) else s[i] as int - '0' as int);
      if tooBig {
        NumberGrows(d, i + 1, base);
        return EM_ETOOBIG, out;
      }
      i := i + 1;
    }
    assert d[..i] == d;
    status := EM_SUCC;
  }

  /** For an unsupported base the value is lost, although the argument is reported as invalid. */
  method UnsupportedBaseStoresZero() returns (status: Status, out: nat)
    ensures status == EM_EINVAL && out == 0
  {
    assert Trimmed("5") == "5";
    status, out := StrToUl3("5", 7, 12);
  }

  /** The nearest value of type long. */
  function Clamp(v: int): (r: int)
    ensures EM_MINLONG <= r <= EM_MAXLONG && (r < v ==> r == EM_MAXLONG) && (r > v ==> r == EM_MINLONG)
  {
    if v > EM_MAXLONG then EM_MAXLONG else if v < EM_MINLONG then EM_MINLONG else v
  }

  /** em_strtol2 clamps the signed number. */
  method StrToL2(str: string, value: int) returns (status: Status, out: int)
    ensures var s := Trimmed(str);
            var negative := s != "" && s[0] == '-';
            var d := DigitPrefix(if negative || (s != "" && s[0] == '+') then Trimmed(s[1..]) else s, 10);
            if d == "" then status == EM_EINVAL && out == value
            else
              var n: int := if negative then 0 - Number(d, 10) else Number(d, 10);
              && out == Clamp(n)
              && status == if n > EM_MAXLONG then EM_ETOOBIG else if n < EM_MINLONG then EM_ETOOSMALL else EM_SUCC
  {
    var s := StrLTrim(str);
    if |s| == 0 {
      return EM_EINVAL, value;
    }
    var negative := false;
    assert Trimmed(s) == s;
    if s[0] == '+' || s[0] == '-' {
      negative := s[0] == '-';
      s := s[1..];
    }
    var rc, retval := StrToUl3(s, 0, 10);
    if rc == EM_EINVAL {
      return rc, value;
    } else if rc != EM_SUCC {
      return if negative then EM_ETOOSMALL else EM_ETOOBIG, if negative then EM_MINLONG else EM_MAXLONG;
    }
    if retval > EM_MAXLONG && !negative {
      return EM_ETOOBIG, EM_MAXLONG;
    }
    if retval > EM_MAXLONG + 1 && negative {
      return EM_ETOOSMALL, EM_MINLONG;
    }
    return EM_SUCC, if negative then 0 - retval else retval;
  }

  /** A sign in front of decimal digits is read as such. */
  method SignsAreRead(d: string) returns (minus: int, plus: int, plain: int)
    requires d != "" && forall i :: 0 <= i < |d| ==> '0' <= d[i] <= '9'
    ensures AllDigits(d, 10)
    ensures minus == Clamp(0 - Number(d, 10)) && plus == plain == Clamp(Number(d, 10))
  {
    assert IsDigit(d[0], 10) && !IsSpace(d[0]) && Trimmed(d) == d;
    PrefixWhole(d, 10);
    var status;
    assert ("-" + d)[1..] == d && Trimmed("-" + d) == "-" + d;
    status, minus := StrToL2("-" + d, 0);
    assert ("+" + d)[1..] == d && Trimmed("+" + d) == "+" + d;
    status, plus := StrToL2("+" + d, 0);
    status, plain := StrToL2(d, 0);
  }

  /** em_strtoul, which wraps around where unsigned long does. */
  method StrToUl(str: string, modulus: nat) returns (value: nat)
    requires modulus > 0
    ensures value == Number(DigitPrefix(str, 10), 10) % modulus
  {
    value := 0;
    ghost var d := DigitPrefix(str, 10);
    var i := 0;
    while i < |str|
      invariant 0 <= i <= |d| && value == Number(d[..i], 10) % modulus
    {
      if !IsDigit(str[i], 10) {
        break;
      }
      assert d[..i + 1] == d[..i] + [str[i]];
      NumberAppend(d[..i], str[i], 10);
      ModStep(Number(d[..i], 10), str[i] as int - '0' as int, modulus);
      value := (value * 10 + (str[i] as int - '0' as int)) % modulus;
      i := i + 1;
    }
    assert d[..i] == d;
  }

  lemma ModStep(n: nat, c: nat, m: nat)
    requires m > 0
    ensures ((n % m) * 10 + c) % m == (n * 10 + c) % m
  {
    var q, r := n / m, n % m;
    assert n == q * m + r;
    assert n * 10 + c == (r * 10 + c) + (q * 10) * m;
    ModMultiple(r * 10 + c, q * 10, m);
  }

  lemma ModMultiple(x: nat, k: nat, m: nat)
    requires m > 0
    ensures (x + k * m) % m == x % m
  {
    var q, r := x / m, x % m;
    assert x + k * m == (q + k) * m + r;
    ModUnique(x + k * m, q + k, r, m);
  }

  lemma ModUnique(x: nat, q: nat, r: nat, m: nat)
    requires m > 0 && r < m && x == q * m + r
    ensures x % m == r
  {
    var p, s := x / m, x % m;
    assert x == p * m + s;
    assert (p - q) * m == r - s;
    Multiples(p - q, m);
  }

  lemma Multiples(k: int, m: nat)
    ensures k >= 1 ==> k * m >= m
    ensures k <= -1 ==> k * m + m <= 0
  {
  }

  // ---------- Printing ----------

  function DigitChar(d: nat): char
    requires d < 10
  {
    (d + '0' as int) as char
  }

  function Digits(v: nat): (s: string)
    ensures s != ""
  {
    if v < 10 then [DigitChar(v)] else Digits(v / 10) + [DigitChar(v % 10)]
  }

  function Pad(c: char, n: nat): (s: string)
    ensures |s| == n && forall i :: 0 <= i < n ==> s[i] == c
  {
    if n == 0 then "" else [c] + Pad(c, n - 1)
  }

  function PadCount(v: nat, minDig: int): nat {
    if minDig > |Digits(v)| then minDig - |Digits(v)| else 0
  }

  function Printed(v: nat, minDig: int, pad: char): string {
    Pad(pad, PadCount(v, minDig)) + Digits(v)
  }

  /** The text ends with the digits, has what is missing to minDig in front of them, and nothing but padding there. */
  lemma PrintedMeans(v: nat, minDig: int, pad: char)
    ensures var s, n := Printed(v, minDig, pad), |Digits(v)|;
            && |s| == (if minDig > n then minDig else n) && s[|s| - n..] == Digits(v)
            && forall i :: 0 <= i < |s| - n ==> s[i] == pad
  {
    assert Printed(v, minDig, pad)[PadCount(v, minDig)..] == Digits(v);
  }

  function Reversed(s: string): (r: string)
    ensures |r| == |s| && forall i :: 0 <= i < |s| ==> r[i] == s[|s| - 1 - i]
  {
    if s == "" then "" else [s[|s| - 1]] + Reversed(s[..|s| - 1])
  }

  /** The last loop of em_utoa_pad swaps the ends of the text towards its middle, at least once. */
  method ReverseInPlace(buf: array<char>, len: nat)
    requires 0 < len <= buf.Length
    modifies buf
    ensures buf[..len] == Reversed(old(buf[..len]))
    ensures forall k :: len <= k < buf.Length ==> buf[k] == old(buf[k])
  {
    var lo: int, p: int := 0, len - 1;
    var more := true;
    while more
      invariant 0 <= lo && lo + p == len - 1 && (more ==> lo <= p) && lo <= p + 2
      invariant !more ==> p <= lo
      invariant forall k :: 0 <= k < len && (k < lo || k > p) ==> buf[k] == old(buf[len - 1 - k])
      invariant forall k :: lo <= k <= p ==> buf[k] == old(buf[k])
      invariant forall k :: len <= k < buf.Length ==> buf[k] == old(buf[k])
      decreases p - lo + (if more then 3 else 2)
    {
      var temp := buf[p];
      buf[p] := buf[lo];
      buf[lo] := temp;
      p := p - 1;
      lo := lo + 1;
      more := lo < p;
    }
    ghost var was := old(buf[..len]);
    assert forall k :: 0 <= k < len ==> buf[..len][k] == was[len - 1 - k] == Reversed(was)[k];
  }

  lemma ReversedAppend(s: string, c: char)
    ensures Reversed(s + [c]) == [c] + Reversed(s)
  {
  }

  lemma DigitsStep(v: nat)
    ensures Digits(v) == (if v / 10 > 0 then Digits(v / 10) else "") + [DigitChar(v % 10)]
    ensures v / 10 < v || v == 0
  {
  }

  /** The digit loop of em_utoa_pad writes the last digit first. */
  method WriteDigits(val: nat, buf: array<char>) returns (len: nat)
    requires buf.Length > |Digits(val)|
    modifies buf
    ensures len == |Digits(val)| && Reversed(buf[..len]) == Digits(val)
    ensures forall k :: len <= k < buf.Length ==> buf[k] == old(buf[k])
  {
    hide Digits, Reversed;
    var v := val;
    var p := 0;
    var more := true;
    assert Reversed(buf[..0]) == "";
    while more
      invariant 0 <= p <= |Digits(val)|
      invariant Digits(val) == (if more then Digits(v) else "") + Reversed(buf[..p])
      invariant forall k :: p <= k < buf.Length ==> buf[k] == old(buf[k])
      decreases v, more
    {
      var digval := v % 10;
      ghost var before := buf[..p];
      DigitsStep(v);
      v := v / 10;
      buf[p] := DigitChar(digval);
      p := p + 1;
      more := v > 0;
      assert buf[..p] == before + [DigitChar(digval)];
      ReversedAppend(before, DigitChar(digval));
    }
    len := p;
  }

  lemma PadMore(c: char, n: nat, s: string)
    ensures [c] + (Pad(c, n) + s) == Pad(c, n + 1) + s
  {
  }

  /** The padding loop of em_utoa_pad. */
  method WritePadding(val: nat, buf: array<char>, start: nat, minDig: int, pad: char) returns (len: nat)
    requires start == |Digits(val)| < buf.Length && minDig < buf.Length && Reversed(buf[..start]) == Digits(val)
    modifies buf
    ensures len == start + PadCount(val, minDig)
    ensures Reversed(buf[..len]) == Printed(val, minDig, pad)
    ensures forall k :: len <= k < buf.Length ==> buf[k] == old(buf[k])
  {
    hide Digits, Reversed, Pad;
    len := start;
    assert Pad(pad, 0) + Digits(val) == Digits(val);
    while len < minDig
      invariant start <= len < buf.Length && (len == start || len <= minDig)
      invariant Reversed(buf[..len]) == Pad(pad, len - start) + Digits(val)
      invariant forall k :: len <= k < buf.Length ==> buf[k] == old(buf[k])
    {
      ghost var before := buf[..len];
      buf[len] := pad;
      len := len + 1;
      assert buf[..len] == before + [pad];
      ReversedAppend(before, pad);
      PadMore(pad, len - 1 - start, Digits(val));
    }
  }

  /** em_utoa_pad writes the padding and the digits, and ends them with a NUL. */
  method UtoaPad(val: nat, buf: array<char>, minDig: int, pad: char) returns (len: nat)
    requires buf.Length > |Digits(val)| && buf.Length > minDig
    modifies buf
    ensures len == |Printed(val, minDig, pad)| && buf[..len] == Printed(val, minDig, pad)
    ensures buf[len] == '\0' && forall k :: len < k < buf.Length ==> buf[k] == old(buf[k])
  {
    len := WriteDigits(val, buf);
    len := WritePadding(val, buf, len, minDig, pad);
    ghost var text := buf[..len];
    buf[len] := '\0';
    assert buf[..len] == text;
    ReverseInPlace(buf, len);
  }

  // ---------- Print then parse ----------

  lemma {:induction false} DigitsMean(v: nat)
    ensures AllDigits(Digits(v), 10) && Number(Digits(v), 10) == v
    ensures v > 0 ==> Digits(v)[0] != '0'
    ensures v == 0 ==> Digits(v) == "0"
  {
    if v < 10 {
      assert Digits(v)[1..] == "" && Pow(10, 0) == 1;
    } else {
      DigitsMean(v / 10);
      NumberAppend(Digits(v / 10), DigitChar(v % 10), 10);
    }
  }

  lemma PrefixWhole(s: string, base: nat)
    requires AllDigits(s, base)
    ensures DigitPrefix(s, base) == s
  {
  }

  lemma {:induction false} PadMeans(c: char, k: nat, s: string)
    requires IsDigit(c, 10) && AllDigits(s, 10)
    ensures AllDigits(Pad(c, k) + s, 10)
    ensures c == '0' ==> Number(Pad(c, k) + s, 10) == Number(s, 10)
    ensures c != '0' && k > 0 ==> Number(Pad(c, k) + s, 10) > Number(s, 10)
  {
    if k == 0 {
      assert Pad(c, 0) + s == s;
    } else {
      PadMeans(c, k - 1, s);
      var t := Pad(c, k) + s;
      assert t[1..] == Pad(c, k - 1) + s;
      PowPositive(10, |t| - 1);
      Product(Digit(c), Pow(10, |t| - 1));
    }
  }

  lemma Product(d: nat, p: nat)
    requires p > 0
    ensures d == 0 ==> d * p == 0
    ensures d > 0 ==> d * p > 0
  {
  }

  lemma {:induction false} PowPositive(b: nat, n: nat)
    requires b > 0
    ensures Pow(b, n) > 0
  {
    if n > 0 {
      PowPositive(b, n - 1);
      NotLess(Pow(b, n - 1), b);
    }
  }

  /** What is read back from a printed number is that number exactly if there is no padding, or it is with zeros, or
      it hides a zero.  em_strtoul delivers it modulo the range of unsigned long. */
  lemma ReadBackIff(v: nat, minDig: int, pad: char)
    ensures Number(DigitPrefix(Printed(v, minDig, pad), 10), 10) == v
            <==> PadCount(v, minDig) == 0 || pad == '0' || (v == 0 && !IsDigit(pad, 10))
  {
    var s, k := Printed(v, minDig, pad), PadCount(v, minDig);
    DigitsMean(v);
    if k == 0 {
      assert s == Digits(v);
      PrefixWhole(s, 10);
    } else if IsDigit(pad, 10) {
      PadMeans(pad, k, Digits(v));
      PrefixWhole(s, 10);
    } else {
      assert s[0] == pad;
      assert DigitPrefix(s, 10) == "";
    }
  }

  /** em_strtoul3 also reads back what was padded with spaces. */
  lemma {:induction false} SpacesAreTrimmed(v: nat, k: nat)
    ensures Trimmed(Pad(' ', k) + Digits(v)) == Digits(v)
    ensures DigitPrefix(Trimmed(Pad(' ', k) + Digits(v)), 10) == Digits(v) && Number(Digits(v), 10) == v
  {
    hide Digits, Number, DigitPrefix;
    DigitsMean(v);
    PrefixWhole(Digits(v), 10);
    var s := Pad(' ', k) + Digits(v);
    if k == 0 {
      assert s == Digits(v) && IsDigit(s[0], 10);
    } else {
      SpacesAreTrimmed(v, k - 1);
      assert s[1..] == Pad(' ', k - 1) + Digits(v);
    }
  }

  /** Print then parse: em_strtoul, whatever its range, and em_strtoul3 give back a number printed without padding or
      padded with zeros, provided that it is in their range. */
  lemma RoundTrip(v: nat, minDig: int, pad: char, modulus: nat)
    requires pad == '0' || minDig <= |Digits(v)|
    ensures v < modulus ==> Number(DigitPrefix(Printed(v, minDig, pad), 10), 10) % modulus == v
    ensures var d := DigitPrefix(Trimmed(Printed(v, minDig, pad)), 10); d != "" && Number(d, 10) == v
  {
    var s := Printed(v, minDig, pad);
    ReadBackIff(v, minDig, pad);
    DigitsMean(v);
    assert PadCount(v, minDig) == 0 ==> s == Digits(v);
    assert IsDigit(s[0], 10) && !IsSpace(s[0]);
    assert Trimmed(s) == s;
    hide Number, DigitPrefix, Trimmed, Printed;
    if v < modulus {
      ModUnique(v, 0, v, modulus);
    }
  }
}
