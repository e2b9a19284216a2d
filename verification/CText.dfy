/** The C string library as the other modules use it: strings without NUL as `seq<char>`,
    with strstr, strcspn, atoi, tolower, isspace and printf's "%d" for naturals. */
module CText {

  datatype Option<+T> = None | Some(value: T)

  // ----- character classes -----

  predicate IsSpace(c: char) {
    c == ' ' || '\t' <= c <= '\r'
  }

  predicate IsDigit(c: char) {
    '0' <= c <= '9'
  }

  function ToLower(c: char): char {
    if 'A' <= c <= 'Z' then c - 'A' + 'a' else c
  }

  function Lower(s: string): (r: string)
    ensures |r| == |s|
    ensures forall i | 0 <= i < |s| :: r[i] == ToLower(s[i])
  {
    seq(|s|, i requires 0 <= i < |s| => ToLower(s[i]))
  }

  predicate IsLower(s: string) {
    forall c | c in s :: !('A' <= c <= 'Z')
  }

  lemma LowerFixesLower(s: string)
    requires IsLower(s)
    ensures Lower(s) == s
  {
    assert forall i | 0 <= i < |s| :: s[i] in s;
  }

  // ----- strcspn, leading and trailing blanks -----

  /** strcspn: the length of the longest prefix free of `stop`. */
  function Cspn(s: string, stop: set<char>): (n: nat)
    ensures n <= |s|
    ensures forall i | 0 <= i < n :: s[i] !in stop
    ensures n < |s| ==> s[n] in stop
  {
    if s == [] || s[0] in stop then 0 else 1 + Cspn(s[1..], stop)
  }

  lemma CspnIs(s: string, stop: set<char>, n: nat)
    requires n <= |s|
    requires forall i | 0 <= i < n :: s[i] !in stop
    requires n < |s| ==> s[n] in stop
    ensures Cspn(s, stop) == n
  {
  }

  /** The C string at the start of a block of bytes: everything before the first NUL. */
  function CString(s: string): (r: string)
    ensures '\0' !in r && r <= s
    ensures '\0' !in s <==> r == s
  {
    s[..Cspn(s, {'\0'})]
  }

  /** The number of leading blanks. */
  function Blanks(s: string): (n: nat)
    ensures n <= |s|
    ensures forall i | 0 <= i < n :: IsSpace(s[i])
    ensures n < |s| ==> !IsSpace(s[n])
  {
    if s == [] || !IsSpace(s[0]) then 0 else 1 + Blanks(s[1..])
  }

  /** `s` without its trailing blanks. */
  function Crop(s: string): (r: string)
    ensures r <= s
    ensures r != [] ==> !IsSpace(r[|r| - 1])
    ensures forall i | |r| <= i < |s| :: IsSpace(s[i])
  {
    if s == [] || !IsSpace(s[|s| - 1]) then s else Crop(s[..|s| - 1])
  }

  /** What Crop promises determines it. */
  lemma CropIs(s: string, n: nat)
    requires n <= |s|
    requires n > 0 ==> !IsSpace(s[n - 1])
    requires forall i | n <= i < |s| :: IsSpace(s[i])
    ensures Crop(s) == s[..n]
  {
    assert forall i | 0 <= i < |Crop(s)| :: Crop(s)[i] == s[i];
  }

  // ----- strstr -----

  predicate OccursAt(s: string, t: string, i: int) {
    0 <= i && i + |t| <= |s| && s[i..i + |t|] == t
  }

  /** strstr: the first occurrence of `t` in `s`. */
  function StrStr(s: string, t: string): (r: Option<nat>)
    ensures r.Some? ==> OccursAt(s, t, r.value) && forall j | 0 <= j < r.value :: !OccursAt(s, t, j)
    ensures r.None? ==> forall j :: !OccursAt(s, t, j)
  {
    StrStrFrom(s, t, 0)
  }

  function StrStrFrom(s: string, t: string, from: nat): (r: Option<nat>)
    requires from <= |s| + 1
    ensures r.Some? ==> from <= r.value && OccursAt(s, t, r.value)
    ensures r.Some? ==> forall j | from <= j < r.value :: !OccursAt(s, t, j)
    ensures r.None? ==> forall j | from <= j :: !OccursAt(s, t, j)
    decreases |s| + 1 - from
  {
    if from + |t| > |s| then None
    else if OccursAt(s, t, from) then Some(from)
    else StrStrFrom(s, t, from + 1)
  }

  lemma StrStrIs(s: string, t: string, i: nat)
    requires OccursAt(s, t, i)
    requires forall j | 0 <= j < i :: !OccursAt(s, t, j)
    ensures StrStr(s, t) == Some(i)
  {
  }

  /** An occurrence inside one part of a concatenation is an occurrence in that part. */
  lemma OccursInParts(a: string, b: string, t: string, i: nat)
    ensures i + |t| <= |a| ==> (OccursAt(a + b, t, i) <==> OccursAt(a, t, i))
    ensures OccursAt(a + b, t, |a| + i) <==> OccursAt(b, t, i)
  {
    if i + |t| <= |a| {
      assert (a + b)[i..i + |t|] == a[i..i + |t|];
    }
    if |a| + i + |t| <= |a + b| {
      assert (a + b)[|a| + i..|a| + i + |t|] == b[i..i + |t|];
    }
  }

  /** A pattern that lacks the character at position `p` cannot lie across it. */
  lemma NoStraddle(s: string, t: string, i: int, p: nat)
    requires p < |s| && s[p] !in t
    ensures OccursAt(s, t, i) ==> i + |t| <= p || p < i
  {
    if OccursAt(s, t, i) {
      assert forall q | i <= q < i + |t| :: s[q] == s[i..i + |t|][q - i];
    }
  }

  // ----- decimal numbers -----

  function Digit(d: nat): (c: char)
    requires d < 10
    ensures IsDigit(c) && c as int == '0' as int + d
  {
    '0' + d as char
  }

  /** printf's "%d" on a natural number. */
  function Decimal(n: nat): (s: string)
    ensures s != [] && forall c | c in s :: IsDigit(c)
  {
    if n < 10 then [Digit(n)] else Decimal(n / 10) + [Digit(n % 10)]
  }

  function Value(digits: string): nat
    requires forall c | c in digits :: IsDigit(c)
  {
    if digits == [] then 0
    else
      var last := digits[|digits| - 1];
      assert IsDigit(last);
      10 * Value(digits[..|digits| - 1]) + (last as int - '0' as int)
  }

  function DigitRun(s: string): (n: nat)
    ensures n <= |s|
    ensures forall i | 0 <= i < n :: IsDigit(s[i])
    ensures n < |s| ==> !IsDigit(s[n])
  {
    if s == [] || !IsDigit(s[0]) then 0 else 1 + DigitRun(s[1..])
  }

  const INT_MAX := 0x7fff_ffff
  const LONG_MAX := 0x7fff_ffff_ffff_ffff

  /** strtol saturates at the range of long. */
  function Saturate(v: int): int {
    if v > LONG_MAX then LONG_MAX else if v < -LONG_MAX - 1 then -LONG_MAX - 1 else v
  }

  /** The low 32 bits of v, read as a signed int. */
  function ToInt(v: int): int {
    var low := v % 0x1_0000_0000;
    if low > INT_MAX then low - 0x1_0000_0000 else low
  }

  /** The number spelt by the leading digits. */
  function Leading(s: string): nat {
    Value(s[..DigitRun(s)])
  }

  /** strtol in base ten, before saturation: blanks, an optional sign, digits. */
  function Strtol(s: string): int {
    var t := s[Blanks(s)..];
    if t != [] && t[0] == '-' then -(Leading(t[1..]) as int)
    else if t != [] && t[0] == '+' then Leading(t[1..])
    else Leading(t)
  }

  /** atoi, converted as glibc does: (int)strtol. */
  function Atoi(s: string): (v: int)
    ensures -INT_MAX - 1 <= v <= INT_MAX
  {
    ToInt(Saturate(Strtol(s)))
  }

  lemma IntFits(v: int)
    requires 0 <= v <= INT_MAX
    ensures ToInt(Saturate(v)) == v
  {
  }

  lemma {:induction false} ValueOfDecimal(n: nat)
    ensures Value(Decimal(n)) == n
  {
    if n >= 10 {
      ValueOfDecimal(n / 10);
      var s := Decimal(n);
      assert s[..|s| - 1] == Decimal(n / 10);
      assert s[|s| - 1] == Digit(n % 10);
    }
  }

  lemma DigitRunOf(digits: string, tail: string)
    requires forall c | c in digits :: IsDigit(c)
    requires tail != [] ==> !IsDigit(tail[0])
    ensures DigitRun(digits + tail) == |digits|
  {
    var s := digits + tail;
    assert forall i | 0 <= i < |digits| :: s[i] == digits[i] && IsDigit(digits[i]);
    assert tail != [] ==> s[|digits|] == tail[0];
  }

  lemma StrtolOfDigits(digits: string, tail: string)
    requires digits != [] && forall c | c in digits :: IsDigit(c)
    requires tail != [] ==> !IsDigit(tail[0])
    ensures Strtol(digits + tail) == Value(digits)
  {
    var s := digits + tail;
    assert IsDigit(digits[0]) && s[0] == digits[0];
    DigitRunOf(digits, tail);
    assert s[0..] == s && s[..|digits|] == digits;
    assert Blanks(s) == 0;
  }

  /** atoi undoes "%d" whatever non-digit text follows. */
  lemma AtoiOfDecimal(n: nat, tail: string)
    requires n <= INT_MAX
    requires tail != [] ==> !IsDigit(tail[0])
    ensures Atoi(Decimal(n) + tail) == n
  {
    ValueOfDecimal(n);
    StrtolOfDigits(Decimal(n), tail);
    IntFits(n);
  }

  /** The characters that isspace knows: blank, tab, newline, vertical tab, form feed, carriage return. */
  const BLANKS: set<char> := {' ', '\t', '\n', '\U{b}', '\U{c}', '\r'}

  lemma AllBlank(blanks: string, tail: string)
    requires (forall c | c in blanks :: c in BLANKS) && (tail != [] ==> tail[0] !in BLANKS)
    ensures (forall c | c in blanks :: IsSpace(c)) && (tail != [] ==> !IsSpace(tail[0]))
  {
  }

  lemma BlanksOf(blanks: string, tail: string)
    requires (forall c | c in blanks :: IsSpace(c)) && (tail != [] ==> !IsSpace(tail[0]))
    ensures Blanks(blanks + tail) == |blanks| && (blanks + tail)[|blanks|..] == tail
  {
    var s := blanks + tail;
    assert forall i | 0 <= i < |blanks| :: s[i] == blanks[i] && blanks[i] in blanks;
    assert tail != [] ==> s[|blanks|] == tail[0];
  }

  function Signed(sign: string, n: nat): int {
    if sign == "-" then -(n as int) else n
  }

  lemma SignedStrtol(sign: string, n: nat, tail: string)
    requires sign in {"", "+", "-"} && (tail != [] ==> !IsDigit(tail[0]))
    ensures var t := sign + (Decimal(n) + tail);
            !IsSpace(t[0]) && Strtol(t) == Signed(sign, n)
  {
    var digits := Decimal(n) + tail;
    ValueOfDecimal(n);
    assert IsDigit(Decimal(n)[0]) && digits[0] == Decimal(n)[0];
    if sign == "" {
      StrtolOfDigits(Decimal(n), tail);
      assert "" + digits == digits;
    } else {
      LeadingDigits(n, tail);
      BehindSign(sign[0], digits);
      assert sign == [sign[0]];
    }
  }

  lemma LeadingDigits(n: nat, tail: string)
    requires tail != [] ==> !IsDigit(tail[0])
    ensures Leading(Decimal(n) + tail) == n
  {
    ValueOfDecimal(n);
    DigitRunOf(Decimal(n), tail);
    assert (Decimal(n) + tail)[..|Decimal(n)|] == Decimal(n);
  }

  lemma BehindSign(sign: char, digits: string)
    requires sign == '+' || sign == '-'
    ensures Strtol([sign] + digits) == if sign == '-' then -(Leading(digits) as int) else Leading(digits)
  {
    var t := [sign] + digits;
    assert Blanks(t) == 0 && t[0..] == t && t[1..] == digits;
  }

  /** atoi of blanks, a sign and a number of any size, whatever non-digit text follows: exact for an int; otherwise the
      low 32 bits, of the end of long's range if the number lies beyond that. */
  lemma AtoiReads(blanks: string, sign: string, n: nat, tail: string)
    requires (forall c | c in blanks :: c in BLANKS) && sign in {"", "+", "-"}
    requires tail != [] ==> !IsDigit(tail[0])
    ensures var r, v := Atoi(blanks + (sign + Decimal(n) + tail)), Signed(sign, n);
            && (-INT_MAX - 1 <= v <= INT_MAX ==> r == v)
            && (n <= LONG_MAX ==> r % 0x1_0000_0000 == v % 0x1_0000_0000)
            && (n > LONG_MAX ==> r == if sign == "-" then 0 else -1)
  {
    assert sign + Decimal(n) + tail == sign + (Decimal(n) + tail);
    StrtolReads(blanks, sign, n, tail);
    Truncated(sign, n);
  }

  lemma StrtolReads(blanks: string, sign: string, n: nat, tail: string)
    requires (forall c | c in blanks :: c in BLANKS) && sign in {"", "+", "-"}
    requires tail != [] ==> !IsDigit(tail[0])
    ensures Strtol(blanks + (sign + (Decimal(n) + tail))) == Signed(sign, n)
  {
    var t := sign + (Decimal(n) + tail);
    SignedStrtol(sign, n, tail);
    AllBlank(blanks, "");
    BlanksOf(blanks, t);
    StrtolBehind(blanks, t);
  }

  lemma StrtolBehind(blanks: string, t: string)
    requires Blanks(blanks + t) == |blanks| && (blanks + t)[|blanks|..] == t && t != [] && !IsSpace(t[0])
    ensures Strtol(blanks + t) == Strtol(t)
  {
    assert Blanks(t) == 0 && t[0..] == t;
  }

  lemma LowBits(v: int)
    ensures ToInt(v) % 0x1_0000_0000 == v % 0x1_0000_0000
  {
    var low := v % 0x1_0000_0000;
    assert (low - 0x1_0000_0000) % 0x1_0000_0000 == low;
  }

  lemma Truncated(sign: string, n: nat)
    requires sign in {"", "+", "-"}
    ensures var v := Signed(sign, n);
            var r := ToInt(Saturate(v));
            && (-INT_MAX - 1 <= v <= INT_MAX ==> r == v)
            && (n <= LONG_MAX ==> r % 0x1_0000_0000 == v % 0x1_0000_0000)
            && (n > LONG_MAX ==> r == if sign == "-" then 0 else -1)
  {
    var v := Signed(sign, n);
    if n <= LONG_MAX {
      assert Saturate(v) == v;
      LowBits(v);
      if -INT_MAX - 1 <= v <= INT_MAX {
        IntFitsSigned(v);
      }
    } else {
      assert Saturate(v) == if sign == "-" then -LONG_MAX - 1 else LONG_MAX;
    }
  }

  lemma IntFitsSigned(v: int)
    requires -INT_MAX - 1 <= v <= INT_MAX
    ensures ToInt(v) == v
  {
    assert v % 0x1_0000_0000 == if v < 0 then v + 0x1_0000_0000 else v;
  }

  lemma AtoiOfDigits(n: nat)
    requires n <= INT_MAX
    ensures Atoi(Decimal(n)) == n
  {
    AtoiOfDecimal(n, "");
    assert Decimal(n) + "" == Decimal(n);
  }

  // ----- concatenation of segments -----

  function Concat(parts: seq<string>): string {
    if parts == [] then [] else parts[0] + Concat(parts[1..])
  }

  lemma {:induction false} ConcatSplits(a: seq<string>, b: seq<string>)
    ensures Concat(a + b) == Concat(a) + Concat(b)
  {
    if a == [] {
      assert a + b == b;
    } else {
      assert (a + b)[0] == a[0] && (a + b)[1..] == a[1..] + b;
      ConcatSplits(a[1..], b);
      assert a[0] + (Concat(a[1..]) + Concat(b)) == a[0] + Concat(a[1..]) + Concat(b);
    }
  }

  lemma ConcatLast(a: seq<string>, s: string)
    ensures Concat(a + [s]) == Concat(a) + s
  {
    ConcatSplits(a, [s]);
    assert Concat([s]) == s + Concat([]);
  }

  // ----- memory -----

  /** memcpy into a buffer. */
  method MemCpy<T>(buf: array<T>, at: nat, data: seq<T>)
    requires at + |data| <= buf.Length
    modifies buf
    ensures buf[..] == old(buf[..at]) + data + old(buf[at + |data|..])
  {
    var i := 0;
    while i < |data|
      invariant i <= |data|
      invariant buf[..at] == old(buf[..at]) && buf[at..at + i] == data[..i]
      invariant buf[at + i..] == old(buf[at + i..])
    {
      buf[at + i] := data[i];
      i := i + 1;
    }
    assert buf[..] == buf[..at] + buf[at..at + i] + buf[at + i..];
  }
}
