/** The C library functions the server's text handling rests on, over a buffer
    of bytes. A C string is named by the buffer and the offset of its first byte. */
module CStrings {

  datatype Option<+T> = None | Some(value: T)

  const NUL: char := '\0'
  const CR: char := '\r'
  const LF: char := '\n'
  const CRLF: string := [CR, LF]

  const INT_MAX: int := 0x7fff_ffff
  const LONG_MAX: int := 0x7fff_ffff_ffff_ffff

  predicate IsBlank(c: char) { c == ' ' || c == '\t' }

  /** The offset of the NUL that ends the string starting at `i`, or the end of the buffer. */
  function CEnd(buf: seq<char>, i: nat): (e: nat)
    requires i <= |buf|
    ensures i <= e <= |buf|
    decreases |buf| - i
  {
    if i == |buf| || buf[i] == NUL then i else CEnd(buf, i + 1)
  }

  lemma {:induction false} CEndMeans(buf: seq<char>, i: nat)
    requires i <= |buf|
    ensures forall k :: i <= k < CEnd(buf, i) ==> buf[k] != NUL
    ensures CEnd(buf, i) < |buf| ==> buf[CEnd(buf, i)] == NUL
    decreases |buf| - i
  {
    if i < |buf| && buf[i] != NUL {
      CEndMeans(buf, i + 1);
    }
  }

  function CStr(buf: seq<char>, i: nat): string
    requires i <= |buf|
  {
    buf[i..CEnd(buf, i)]
  }

  /** The C string at `i` depends only on the bytes up to and including a NUL at `e`. */
  lemma {:induction false} CStrFrame(b1: seq<char>, b2: seq<char>, i: nat, e: nat)
    requires i <= e < |b1| && e < |b2|
    requires forall k :: i <= k <= e ==> b1[k] == b2[k]
    requires b1[e] == NUL
    ensures CEnd(b1, i) == CEnd(b2, i) <= e
    ensures CStr(b1, i) == CStr(b2, i)
    decreases e - i
  {
    if b1[i] != NUL {
      CStrFrame(b1, b2, i + 1, e);
    }
    assert CStr(b1, i) == CStr(b2, i);
  }

  /** strpbrk(t + k, " \t") as an offset into t; |t| where C returns NULL. */
  function BlankFrom(t: string, k: nat): (r: nat)
    requires k <= |t|
    ensures k <= r <= |t|
    decreases |t| - k
  {
    if k == |t| || IsBlank(t[k]) then k else BlankFrom(t, k + 1)
  }

  lemma {:induction false} BlankFromMeans(t: string, k: nat)
    requires k <= |t|
    ensures forall m :: k <= m < BlankFrom(t, k) ==> !IsBlank(t[m])
    ensures BlankFrom(t, k) < |t| ==> IsBlank(t[BlankFrom(t, k)])
    decreases |t| - k
  {
    if k < |t| && !IsBlank(t[k]) {
      BlankFromMeans(t, k + 1);
    }
  }

  /** t + k + strspn(t + k, " \t") as an offset into t. */
  function SkipBlanks(t: string, k: nat): (r: nat)
    requires k <= |t|
    ensures k <= r <= |t|
    decreases |t| - k
  {
    if k == |t| || !IsBlank(t[k]) then k else SkipBlanks(t, k + 1)
  }

  lemma {:induction false} SkipBlanksMeans(t: string, k: nat)
    requires k <= |t|
    ensures forall m :: k <= m < SkipBlanks(t, k) ==> IsBlank(t[m])
    ensures SkipBlanks(t, k) < |t| ==> !IsBlank(t[SkipBlanks(t, k)])
    decreases |t| - k
  {
    if k < |t| && IsBlank(t[k]) {
      SkipBlanksMeans(t, k + 1);
    }
  }

  /** strchr(t + k, c) as an offset into t. */
  function IndexFrom(t: string, k: nat, c: char): (r: Option<nat>)
    ensures r.Some? ==> k <= r.value < |t| && t[r.value] == c
    decreases |t| - k
  {
    if k >= |t| then None else if t[k] == c then Some(k) else IndexFrom(t, k + 1, c)
  }

  lemma {:induction false} IndexFromMeans(t: string, k: nat, c: char)
    ensures IndexFrom(t, k, c).None? <==> forall m :: k <= m < |t| ==> t[m] != c
    ensures IndexFrom(t, k, c).Some? ==> forall m :: k <= m < IndexFrom(t, k, c).value ==> t[m] != c
    decreases |t| - k
  {
    if k < |t| && t[k] != c {
      IndexFromMeans(t, k + 1, c);
    }
  }

  function Lower(c: char): char {
    if 'A' <= c <= 'Z' then (c as int + 32) as char else c
  }

  /** strncasecmp(t + k, p, strlen(p)) == 0. */
  predicate MatchesAt(t: string, k: nat, p: string) {
    k + |p| <= |t| && forall n :: 0 <= n < |p| ==> Lower(t[k+n]) == Lower(p[n])
  }

  /** strcasecmp(t + k, p) == 0. */
  predicate EqualsAt(t: string, k: nat, p: string) {
    k + |p| == |t| && MatchesAt(t, k, p)
  }

  // ---------- numbers ----------

  predicate IsDigit(c: char) { '0' <= c <= '9' }

  predicate IsSpace(c: char) { c == ' ' || '\t' <= c <= '\r' }

  function Digit(c: char): (d: nat)
    requires IsDigit(c)
    ensures d < 10
  {
    c as int - '0' as int
  }

  function SpaceSpan(t: string): (r: nat)
    ensures r <= |t|
  {
    if t == [] || !IsSpace(t[0]) then 0 else 1 + SpaceSpan(t[1..])
  }

  /** The longest prefix of decimal digits. */
  function DigitSpan(t: string): (r: nat)
    ensures r <= |t|
    ensures forall k :: 0 <= k < r ==> IsDigit(t[k])
    ensures r < |t| ==> !IsDigit(t[r])
  {
    if t == [] || !IsDigit(t[0]) then 0 else 1 + DigitSpan(t[1..])
  }

  function NatValue(ds: string): nat
    requires forall k :: 0 <= k < |ds| ==> IsDigit(ds[k])
  {
    if ds == [] then 0 else NatValue(ds[..|ds|-1]) * 10 + Digit(ds[|ds|-1])
  }

  function Saturate(v: int): int {
    if v > LONG_MAX then LONG_MAX else if v < -LONG_MAX - 1 then -LONG_MAX - 1 else v
  }

  /** atol: white space, an optional sign, digits; out-of-range values stick at the ends of long. */
  function Atol(t: string): int {
    var u := t[SpaceSpan(t)..];
    var negative := u != [] && u[0] == '-';
    var v := if u != [] && (u[0] == '-' || u[0] == '+') then u[1..] else u;
    var n: int := NatValue(v[..DigitSpan(v)]);
    Saturate(if negative then -n else n)
  }

  /** Conversion of a long to a 32-bit int, keeping the low 32 bits. */
  function ToInt(v: int): (r: int)
    ensures -INT_MAX - 1 <= r <= INT_MAX
    ensures -INT_MAX - 1 <= v <= INT_MAX ==> r == v
  {
    (v + INT_MAX + 1) % (2 * (INT_MAX + 1)) - INT_MAX - 1
  }

  /** printf's %d for a number that is not negative. */
  function Decimal(n: nat): (ds: string)
    ensures |ds| > 0
    ensures forall k :: 0 <= k < |ds| ==> IsDigit(ds[k])
  {
    if n < 10 then [('0' as int + n) as char]
    else Decimal(n / 10) + [('0' as int + n % 10) as char]
  }

  /** printf's %d. */
  function FormatInt(v: int): string {
    if v < 0 then "-" + Decimal(-v) else Decimal(v)
  }

  lemma {:induction false} DecimalValue(n: nat)
    ensures NatValue(Decimal(n)) == n
  {
    if n >= 10 {
      DecimalValue(n / 10);
      assert Decimal(n)[..|Decimal(n)|-1] == Decimal(n / 10);
    } else {
      assert Decimal(n)[..0] == [];
      assert NatValue(Decimal(n)[..0]) == 0;
    }
  }

  /** Reading a printed number gives the number back. */
  lemma AtolDecimal(n: nat)
    requires n <= LONG_MAX
    ensures Atol(Decimal(n)) == n
  {
    var t := Decimal(n);
    assert IsDigit(t[0]);
    assert SpaceSpan(t) == 0;
    assert t[0..] == t;
    assert DigitSpan(t) == |t|;
    assert t[..|t|] == t;
    DecimalValue(n);
  }
}
