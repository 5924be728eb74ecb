/** The VPN addresses 10.13.0.0/16 in the order in which the control server
    tries them, and its first-fit search. */
module AddressPool {
  import opened Text
  import opened Wrappers

  /** The search tries 256 third octets, each with fourth octets 1 to 255. */
  const POOL := 65_280

  const DIGITS := "0123456789"

  /** Decimal notation. */
  function Decimal(n: nat): string {
    if n < 10 then [DIGITS[n]] else Decimal(n / 10) + [DIGITS[n % 10]]
  }

  function Format(third: nat, fourth: nat): string {
    "10.13." + Decimal(third) + "." + Decimal(fourth)
  }

  /** The k-th address that the search tries. */
  function Address(k: nat): string {
    Format(k / 255, k % 255 + 1)
  }

  // ------------------------------------------------- addresses are distinct

  lemma DigitsAreDistinct(i: nat, j: nat)
    requires i < 10 && j < 10 && DIGITS[i] == DIGITS[j]
    ensures i == j
  {
  }

  lemma {:induction false} DecimalHasNoDot(n: nat)
    ensures Decimal(n) != "" && '.' !in Decimal(n)
  {
    if n >= 10 {
      DecimalHasNoDot(n / 10);
    }
  }

  lemma {:induction false} DecimalIsInjective(m: nat, n: nat)
    requires Decimal(m) == Decimal(n)
    ensures m == n
  {
    var s := Decimal(m);
    if m >= 10 {
      DecimalHasNoDot(m / 10);
      assert s[..|s| - 1] == Decimal(m / 10) && s[|s| - 1] == DIGITS[m % 10];
    }
    if n >= 10 {
      DecimalHasNoDot(n / 10);
      assert s[..|s| - 1] == Decimal(n / 10) && s[|s| - 1] == DIGITS[n % 10];
    }
    DigitsAreDistinct(m % 10, n % 10);
    if m >= 10 && n >= 10 {
      DecimalIsInjective(m / 10, n / 10);
    }
  }

  lemma FormatIsInjective(a: nat, b: nat, c: nat, d: nat)
    requires Format(a, b) == Format(c, d)
    ensures a == c && b == d
  {
    var x, y := Decimal(a) + "." + Decimal(b), Decimal(c) + "." + Decimal(d);
    assert Format(a, b) == "10.13." + x && Format(c, d) == "10.13." + y;
    assert x == Format(a, b)[6..] && y == Format(c, d)[6..];
    DecimalHasNoDot(a);
    DecimalHasNoDot(c);
    CutIsUnique(Decimal(a), Decimal(b), Decimal(c), Decimal(d), '.');
    DecimalIsInjective(a, c);
    DecimalIsInjective(b, d);
  }

  lemma AddressIsInjective(j: nat, k: nat)
    requires Address(j) == Address(k)
    ensures j == k
  {
    FormatIsInjective(j / 255, j % 255 + 1, k / 255, k % 255 + 1);
  }

  // ------------------------------------------------ what the addresses say

  /** The number that a string of decimal digits spells, by character code. */
  function Number(s: string): int {
    if s == "" then 0 else 10 * Number(s[..|s| - 1]) + (s[|s| - 1] as int - '0' as int)
  }

  lemma DigitCode(i: nat)
    requires i < 10
    ensures DIGITS[i] as int == '0' as int + i
  {
  }

  lemma {:induction false} NumberOfDecimal(n: nat)
    ensures Number(Decimal(n)) == n
  {
    var s := Decimal(n);
    DigitCode(n % 10);
    if n >= 10 {
      NumberOfDecimal(n / 10);
      assert s[..|s| - 1] == Decimal(n / 10) && s[|s| - 1] == DIGITS[n % 10];
    } else {
      assert s[..0] == "";
    }
  }

  lemma PrefixCut(x: string, y: string)
    requires "10.13." + x == "10.13." + y
    ensures x == y
  {
    assert x == ("10.13." + x)[6..] && y == ("10.13." + y)[6..];
  }

  /** The k-th address is in 10.13.0.0/16; its third octet reads `k / 255`, its
      fourth `k % 255 + 1`. */
  lemma AddressReadsBack(k: nat, third: string, fourth: string)
    requires Address(k) == "10.13." + third + "." + fourth && '.' !in third
    ensures Number(third) == k / 255 && Number(fourth) == k % 255 + 1
  {
    var a, b := k / 255, k % 255 + 1;
    assert Address(k) == "10.13." + Decimal(a) + "." + Decimal(b);
    hide Decimal, Number, Address;
    TextReadsBack(Decimal(a), Decimal(b), third, fourth, a);
    NumberOfDecimal(a);
    NumberOfDecimal(b);
  }

  lemma TextReadsBack(x: string, y: string, third: string, fourth: string, a: nat)
    requires "10.13." + x + "." + y == "10.13." + third + "." + fourth && x == Decimal(a) && '.' !in third
    ensures x == third && y == fourth
  {
    hide Decimal;
    var dot := ['.'];
    assert "10.13." + x + "." + y == "10.13." + (x + dot + y);
    assert "10.13." + third + "." + fourth == "10.13." + (third + dot + fourth);
    PrefixCut(x + dot + y, third + dot + fourth);
    DecimalHasNoDot(a);
    CutIsUnique(x, y, third, fourth, '.');
  }

  /** Every address of the pool has that form, and the first ones are these. */
  lemma AddressForm(k: nat)
    ensures exists third, fourth :: Address(k) == "10.13." + third + "." + fourth && '.' !in third
    ensures Address(0) == "10.13.0.1" && Address(1) == "10.13.0.2" && Address(255) == "10.13.1.1"
  {
    DecimalHasNoDot(k / 255);
    assert Address(k) == "10.13." + Decimal(k / 255) + "." + Decimal(k % 255 + 1);
  }

  // --------------------------------------------------------- first-fit search

  /** The first `k` addresses that the search tries. */
  function FirstAddresses(k: nat): set<string> {
    set j: nat | j < k :: Address(j)
  }

  lemma NoneFirst()
    ensures FirstAddresses(0) == {}
  {
  }

  lemma FirstAddressesNext(k: nat)
    ensures FirstAddresses(k + 1) == FirstAddresses(k) + {Address(k)}
  {
    forall ip | ip in FirstAddresses(k + 1) ensures ip in FirstAddresses(k) + {Address(k)} {
      var j: nat :| j < k + 1 && ip == Address(j);
      assert j < k ==> ip in FirstAddresses(k);
    }
  }

  lemma NotAmongFirst(k: nat)
    ensures Address(k) !in FirstAddresses(k)
  {
    if Address(k) in FirstAddresses(k) {
      var j: nat :| j < k && Address(j) == Address(k);
      AddressIsInjective(j, k);
    }
  }

  lemma {:induction false} FirstAddressesCount(k: nat)
    ensures |FirstAddresses(k)| == k
  {
    hide Address, FirstAddresses;
    NoneFirst();
    if k > 0 {
      FirstAddressesCount(k - 1);
      FirstAddressesNext(k - 1);
      NotAmongFirst(k - 1);
    }
  }

  lemma SubsetCount<T>(a: set<T>, b: set<T>)
    requires a <= b
    ensures |a| <= |b|
  {
    assert b == a + (b - a);
  }

  /** `k` is the place of the first address not in `used`, or `POOL`. */
  ghost predicate IsFirstFree(used: set<string>, k: nat) {
    k <= POOL && FirstAddresses(k) <= used && (k < POOL ==> Address(k) !in used)
  }

  lemma FirstFreeIsUnique(used: set<string>, j: nat, k: nat)
    requires IsFirstFree(used, j) && IsFirstFree(used, k)
    ensures j == k
  {
  }

  /** First fit never skips further than the addresses in use: with fewer than
      `POOL` of them there is always a free one. */
  lemma FirstFreeIsLow(used: set<string>, k: nat)
    requires IsFirstFree(used, k)
    ensures k <= |used|
  {
    FirstAddressesCount(k);
    SubsetCount(FirstAddresses(k), used);
  }

  lemma PrefixGrows(used: set<string>, k: nat)
    requires FirstAddresses(k) <= used && Address(k) in used
    ensures FirstAddresses(k + 1) <= used
  {
    FirstAddressesNext(k);
  }

  function FirstFree(used: set<string>, from: nat := 0): (k: nat)
    requires from <= POOL && FirstAddresses(from) <= used
    ensures IsFirstFree(used, k)
    decreases POOL - from
  {
    if from == POOL || Address(from) !in used then from
    else
      PrefixGrows(used, from);
      FirstFree(used, from + 1)
  }

  /** What `next_ip` returns; `None` stands for its error. */
  function NextIp(used: set<string>): (ip: Option<string>)
    ensures ip.Some? <==> FirstFree(used) < POOL
    ensures ip.Some? ==> ip.value == Address(FirstFree(used))
  {
    if FirstFree(used) < POOL then Some(Address(FirstFree(used))) else None
  }

  /** The place at which the double loop tries an address. */
  lemma PlaceInLoop(third: nat, fourth: nat)
    requires 1 <= fourth <= 255
    ensures Address(third * 255 + fourth - 1) == Format(third, fourth)
  {
    hide Decimal;
    Rows(third, fourth - 1);
  }

  lemma Rows(q: nat, r: nat)
    requires r < 255
    ensures (q * 255 + r) / 255 == q && (q * 255 + r) % 255 == r
  {
  }

  /** The double loop of `next_ip`. */
  method Search(used: set<string>) returns (ip: Option<string>)
    ensures ip == NextIp(used)
  {
    hide Address, FirstAddresses, Format, FirstFree;
    NoneFirst();
    var third := 0;
    while third <= 255
      invariant 0 <= third <= 256
      invariant FirstAddresses(third * 255) <= used
    {
      var fourth := 1;
      while fourth <= 255
        invariant 1 <= fourth <= 256
        invariant FirstAddresses(third * 255 + fourth - 1) <= used
      {
        var candidate := Format(third, fourth);
        ghost var k := third * 255 + fourth - 1;
        PlaceInLoop(third, fourth);
        if candidate !in used {
          FirstFreeIsUnique(used, k, FirstFree(used));
          return Some(candidate);
        }
        PrefixGrows(used, k);
        fourth := fourth + 1;
      }
      third := third + 1;
    }
    FirstFreeIsUnique(used, POOL, FirstFree(used));
    return None;
  }
}
