/** Choosing a VM host name that no active VM uses. Names are ASCII, one byte a character. */
module Hostname {
  import opened Basics
  import opened Wrappers

  /** Longest label of a host name, section 2.3.4 of RFC 1035. */
  const MAX_LABEL: nat := 63

  const DOMAIN: string := ".local"

  function Digit(d: nat): char
    requires d < 10
  {
    ('0' as int + d) as char
  }

  /** Decimal digits, as the counter is formatted. */
  function Digits(n: nat): (r: string)
    ensures r != [] && forall i :: 0 <= i < |r| ==> r[i] != '-'
  {
    if n < 10 then [Digit(n)] else Digits(n / 10) + [Digit(n % 10)]
  }

  function Suffix(counter: nat): string { "-" + Digits(counter) }

  /** The name tried at a counter: the base, then the base cut to make room for the counter. */
  function Candidate(base: string, counter: nat): string
    requires counter < 0x1_0000_0000
  {
    if counter == 0 then base
    else
      SuffixLength(counter);
      base[..Min(|base|, MAX_LABEL - |Suffix(counter)|)] + Suffix(counter)
  }

  function Pow10(k: nat): nat { if k == 0 then 1 else 10 * Pow10(k - 1) }

  lemma {:induction false} DigitsLength(n: nat, k: nat)
    requires k > 0 && n < Pow10(k)
    ensures |Digits(n)| <= k
  {
    if n >= 10 {
      DigitsLength(n / 10, k - 1);
    }
  }

  lemma SuffixLength(counter: nat)
    requires counter < 0x1_0000_0000
    ensures |Suffix(counter)| <= 11
  {
    assert Pow10(5) == 100000 && Pow10(10) == 10000000000;
    DigitsLength(counter, 10);
  }

  /** The number that decimal digits stand for. */
  function Value(s: string): int {
    if s == [] then 0 else Value(s[..|s| - 1]) * 10 + (s[|s| - 1] as int - '0' as int)
  }

  /** The digits are those of the counter, without leading zeros. */
  lemma {:induction false} DigitsValue(n: nat)
    ensures Value(Digits(n)) == n && (n > 0 ==> Digits(n)[0] != '0')
    ensures forall i :: 0 <= i < |Digits(n)| ==> '0' <= Digits(n)[i] <= '9'
  {
    if n >= 10 {
      DigitsValue(n / 10);
      assert Digits(n)[..|Digits(n)| - 1] == Digits(n / 10);
    } else {
      assert Digits(n) == [Digit(n)];
      assert Digits(n)[..0] == [];
    }
  }

  /** A suffixed name: as much of the base as fits, a dash, the counter. */
  ghost predicate SuffixedName(base: string, counter: nat, name: string) {
    exists k: nat, ds: string ::
      && k <= |base| && name == base[..k] + ("-" + ds)
      && Value(ds) == counter && ds != "" && ds[0] != '0' && (forall i :: 0 <= i < |ds| ==> '0' <= ds[i] <= '9')
      && (if |base| + 1 + |ds| <= 63 then k == |base| else |name| == 63)
  }

  lemma CandidateIsSuffixed(base: string, counter: nat)
    requires 0 < counter < 0x1_0000_0000
    ensures SuffixedName(base, counter, Candidate(base, counter))
  {
    SuffixLength(counter);
    DigitsValue(counter);
    var ds := Digits(counter);
    var k: nat := Min(|base|, MAX_LABEL - |Suffix(counter)|);
    hide Digits, Value;
    assert Candidate(base, counter) == base[..k] + ("-" + ds);
  }

  lemma {:induction false} DigitsInjective(m: nat, n: nat)
    requires Digits(m) == Digits(n)
    ensures m == n
  {
    var d, e := Digits(m), Digits(n);
    assert d[|d| - 1] == Digit(m % 10) && e[|e| - 1] == Digit(n % 10);
    assert (m >= 10 <==> |d| > 1) && (n >= 10 <==> |e| > 1);
    if m >= 10 {
      assert d[..|d| - 1] == Digits(m / 10) && e[..|e| - 1] == Digits(n / 10);
      DigitsInjective(m / 10, n / 10);
    }
  }

  /** The last dash tells the counters apart, whatever was cut. */
  lemma LastDash(a: string, b: string, d: string, e: string)
    requires a + "-" + d == b + "-" + e && '-' !in d && '-' !in e
    ensures d == e
  {
    var s := a + "-" + d;
    assert s[|s| - |d| - 1] == '-' && s[|s| - |e| - 1] == '-';
    assert forall i :: |s| - |d| <= i < |s| ==> s[i] == d[i - (|s| - |d|)] && s[i] != '-';
    assert forall i :: |s| - |e| <= i < |s| ==> s[i] == e[i - (|s| - |e|)] && s[i] != '-';
    assert |d| == |e| && s[|s| - |d|..] == d && s[|s| - |e|..] == e;
  }

  lemma CandidatesDiffer(base: string, c: nat, c': nat)
    requires 0 < c < 0x1_0000_0000 && 0 < c' < 0x1_0000_0000
    requires Candidate(base, c) + DOMAIN == Candidate(base, c') + DOMAIN
    ensures c == c'
  {
    var s, t := Candidate(base, c), Candidate(base, c');
    assert s == (s + DOMAIN)[..|s|] && t == (t + DOMAIN)[..|t|];
    SuffixLength(c);
    SuffixLength(c');
    var a, b := base[..Min(|base|, MAX_LABEL - |Suffix(c)|)], base[..Min(|base|, MAX_LABEL - |Suffix(c')|)];
    assert s == a + "-" + Digits(c) && t == b + "-" + Digits(c');
    LastDash(a, b, Digits(c), Digits(c'));
    DigitsInjective(c, c');
  }

  ghost predicate Taken(base: string, counter: nat, active: set<string>)
    requires counter < 0x1_0000_0000
  {
    Candidate(base, counter) + DOMAIN in active
  }

  /** Pigeonhole: no more suffixed candidates can be taken than there are active names. */
  lemma {:induction false} TakenAtMost(base: string, active: set<string>, n: nat)
    requires n < 0x1_0000_0000
    requires forall c :: 0 < c <= n ==> Taken(base, c, active)
    ensures n <= |active|
  {
    if n > 0 {
      var name := Candidate(base, n) + DOMAIN;
      assert Taken(base, n, active);
      forall c | 0 < c <= n - 1 ensures Taken(base, c, active - {name}) {
        assert Taken(base, c, active);
        if Candidate(base, c) + DOMAIN == name {
          CandidatesDiffer(base, c, n);
        }
      }
      TakenAtMost(base, active - {name}, n - 1);
    }
  }

  const COUNTERS: nat := 0x1_0000_0000

  /**
    Tries the counters in turn. The counter has 32 bits; when every one of its
    values is taken there is no name, which takes that many active names.
   */
  method PickUnique(base: string, active: set<string>) returns (name: Option<string>, ghost counter: nat)
    ensures name == None <==> forall c :: 0 <= c < COUNTERS ==> Taken(base, c, active)
    ensures |active| < COUNTERS - 1 ==> name.Some? && counter <= |active| + 1
    ensures name.Some? ==>
      && name.value + ".local" !in active
      && (|base| <= 63 ==> |name.value| <= 63)
      && (name.value == base <==> base + ".local" !in active)
      && (name.value != base ==> SuffixedName(base, counter, name.value))
      && counter < COUNTERS && name.value == Candidate(base, counter)
      && forall c :: 0 <= c < counter ==> Taken(base, c, active)
  {
    for next := 0 to COUNTERS
      invariant forall c :: 0 <= c < next ==> Taken(base, c, active)
      invariant next <= |active| + 1
    {
      var candidate := Candidate(base, next);
      SuffixLength(next);
      if candidate + DOMAIN !in active {
        if next > 0 { CandidateIsSuffixed(base, next); }
        assert !Taken(base, next, active) && (next > 0 ==> Taken(base, 0, active));
        return Some(candidate), next;
      }
      TakenAtMost(base, active, next);
    }
    return None, COUNTERS;
  }
}
