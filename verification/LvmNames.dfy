/**
  LVM names: device-mapper joins the volume group and the volume with a dash and
  doubles the dashes inside; the lister takes such a name apart, the mounter
  puts it together again from a colon-separated identifier.
 */
module LvmNames {
  import opened Wrappers
  import opened Sequences

  datatype LvIdent = LvIdent(vgName: string, lvName: string)
  datatype NameError = InvalidIdentifier | InvalidDiskPath

  function Repeat(n: nat): (r: string)
    ensures |r| == n && forall i :: 0 <= i < n ==> r[i] == '-'
  {
    seq(n, _ => '-')
  }

  /** Every dash doubled. */
  function Escape(s: string): string {
    if s == [] then []
    else (if s[0] == '-' then "--" else [s[0]]) + Escape(s[1..])
  }

  /** Every pair of dashes replaced by one, from the left. */
  function Collapse(s: string): string {
    if s == [] then []
    else if |s| >= 2 && s[0] == '-' && s[1] == '-' then "-" + Collapse(s[2..])
    else [s[0]] + Collapse(s[1..])
  }

  /** Length of the longest prefix without dashes. */
  function NonDash(s: string): (n: nat)
    ensures n <= |s|
  {
    if s == [] || s[0] == '-' then 0 else 1 + NonDash(s[1..])
  }

  /** Length of the longest prefix of dashes. */
  function Dashes(s: string): (n: nat)
    ensures n <= |s|
  {
    if s == [] || s[0] != '-' then 0 else 1 + Dashes(s[1..])
  }

  /** The volume group up to the first odd run of dashes, and what follows that run. */
  function TakeVg(s: string): (r: (string, string))
    decreases |s|
  {
    if s == [] then ([], [])
    else
      var n := NonDash(s);
      var d := Dashes(s[n..]);
      var head := s[..n] + Repeat(d / 2);
      var rest := s[n..][d..];
      if d % 2 == 1 then (head, rest)
      else
        RunNotEmpty(s);
        (head + TakeVg(rest).0, TakeVg(rest).1)
  }

  lemma RunNotEmpty(s: string)
    requires s != []
    ensures NonDash(s) + Dashes(s[NonDash(s)..]) > 0
  {}

  function Parse(s: string): Result<LvIdent, NameError> {
    var (vg, rest) := TakeVg(s);
    var lv := Collapse(rest);
    if vg == [] || lv == [] then Failure(InvalidIdentifier) else Success(LvIdent(vg, lv))
  }

  /** The device-mapper name of a volume. */
  function Print(vg: string, lv: string): string { Escape(vg) + "-" + Escape(lv) }

  /** Characters up to the next dash. */
  method NextNonDashes(chars: string) returns (run: string, rest: string)
    ensures run == chars[..NonDash(chars)] && rest == chars[NonDash(chars)..]
  {
    run, rest := "", chars;
    while rest != [] && rest[0] != '-'
      invariant chars == run + rest && NonDash(chars) == |run| + NonDash(rest)
      decreases |rest|
    {
      run, rest := run + [rest[0]], rest[1..];
    }
  }

  method CountDashes(chars: string) returns (count: nat, rest: string)
    ensures count == Dashes(chars) && rest == chars[count..]
  {
    count, rest := 0, chars;
    while rest != [] && rest[0] == '-'
      invariant count <= |chars| && rest == chars[count..] && Dashes(chars) == count + Dashes(rest)
      decreases |rest|
    {
      count, rest := count + 1, rest[1..];
    }
  }

  /** The lister's parser, loop by loop. */
  method ParseName(s: string) returns (r: Result<LvIdent, NameError>)
    ensures r == Parse(s)
  {
    var chars, vgName, odd := s, "", false;
    assert vgName + TakeVg(chars).0 == TakeVg(chars).0;
    hide TakeVg, Repeat;
    while chars != [] && !odd
      invariant TakeVg(s) == if odd then (vgName, chars) else (vgName + TakeVg(chars).0, TakeVg(chars).1)
      decreases |chars|, !odd
    {
      TakeVgStep(vgName, chars);
      RunNotEmpty(chars);
      var run, dashCount;
      run, chars := NextNonDashes(chars);
      dashCount, chars := CountDashes(chars);
      vgName := vgName + run + Repeat(dashCount / 2);
      odd := dashCount % 2 == 1;
    }
    if !odd {
      TakeVgOfNothing();
      assert vgName + [] == vgName;
    }
    var lvName := Collapse(chars);
    if vgName == [] || lvName == [] {
      return Failure(InvalidIdentifier);
    }
    return Success(LvIdent(vgName, lvName));
  }

  lemma TakeVgOfNothing()
    ensures TakeVg([]) == ([], [])
  {}

  /** One turn of the loop, with the part of the group name collected before it. */
  lemma TakeVgStep(acc: string, s: string)
    requires s != []
    ensures var n, d := NonDash(s), Dashes(s[NonDash(s)..]);
            var vgName, rest := acc + s[..n] + Repeat(d / 2), s[n..][d..];
            (acc + TakeVg(s).0, TakeVg(s).1) ==
              if d % 2 == 1 then (vgName, rest) else (vgName + TakeVg(rest).0, TakeVg(rest).1)
  {
    var n, d := NonDash(s), Dashes(s[NonDash(s)..]);
    TakeVgUnrolled(s);
    hide TakeVg, Repeat, NonDash, Dashes;
    Associative(acc, s[..n], Repeat(d / 2));
    Associative(acc, s[..n] + Repeat(d / 2), TakeVg(s[n..][d..]).0);
  }

  lemma TakeVgUnrolled(s: string)
    requires s != []
    ensures var n, d := NonDash(s), Dashes(s[NonDash(s)..]);
            var head, rest := s[..n] + Repeat(d / 2), s[n..][d..];
            TakeVg(s) == if d % 2 == 1 then (head, rest) else (head + TakeVg(rest).0, TakeVg(rest).1)
  {
    hide NonDash, Dashes, Repeat;
  }

  // ----- runs of dashes

  lemma {:induction false} RunAt(s: string, n: nat, d: nat)
    requires n + d <= |s| && (d > 0 || n == |s|)
    requires forall i :: 0 <= i < n ==> s[i] != '-'
    requires forall i :: n <= i < n + d ==> s[i] == '-'
    requires n + d < |s| ==> s[n + d] != '-'
    ensures NonDash(s) == n && Dashes(s[n..]) == d
  {
    if n > 0 {
      RunAt(s[1..], n - 1, d);
      assert s[1..][n - 1..] == s[n..];
    } else if d > 0 {
      DashesAt(s, d);
    }
  }

  lemma {:induction false} DashesAt(s: string, d: nat)
    requires d <= |s| && (forall i :: 0 <= i < d ==> s[i] == '-') && (d < |s| ==> s[d] != '-')
    ensures Dashes(s) == d
  {
    if d > 0 {
      DashesAt(s[1..], d - 1);
    }
  }

  lemma {:induction false} RunFacts(s: string)
    ensures forall i :: 0 <= i < NonDash(s) ==> s[i] != '-'
    ensures NonDash(s) < |s| ==> s[NonDash(s)] == '-'
  {
    if s != [] && s[0] != '-' {
      RunFacts(s[1..]);
    }
  }

  lemma {:induction false} DashFacts(s: string)
    ensures forall i :: 0 <= i < Dashes(s) ==> s[i] == '-'
    ensures Dashes(s) < |s| ==> s[Dashes(s)] != '-'
    ensures s[..Dashes(s)] == Repeat(Dashes(s))
  {
    if s != [] && s[0] == '-' {
      DashFacts(s[1..]);
    }
  }

  lemma {:induction false} EscapeConcat(a: string, b: string)
    ensures Escape(a + b) == Escape(a) + Escape(b)
  {
    if a == [] {
      assert a + b == b;
    } else {
      assert (a + b)[1..] == a[1..] + b;
      EscapeConcat(a[1..], b);
    }
  }

  lemma {:induction false} EscapePlain(s: string)
    requires forall i :: 0 <= i < |s| ==> s[i] != '-'
    ensures Escape(s) == s
  {
    if s != [] {
      EscapePlain(s[1..]);
    }
  }

  lemma {:induction false} EscapeDashes(n: nat)
    ensures Escape(Repeat(n)) == Repeat(2 * n)
  {
    if n > 0 {
      assert Repeat(n)[1..] == Repeat(n - 1);
      EscapeDashes(n - 1);
      assert "--" + Repeat(2 * (n - 1)) == Repeat(2 * n);
    }
  }

  lemma {:induction false} CollapseEscape(s: string)
    ensures Collapse(Escape(s)) == s
  {
    if s != [] {
      CollapseEscape(s[1..]);
      if s[0] == '-' {
        assert Escape(s)[2..] == Escape(s[1..]);
      } else {
        assert Escape(s)[1..] == Escape(s[1..]);
      }
    }
  }

  // ----- parsing what was printed

  lemma EscapeRun(plain: string, dashes: nat)
    requires forall i :: 0 <= i < |plain| ==> plain[i] != '-'
    ensures Escape(plain + Repeat(dashes)) == plain + Repeat(2 * dashes)
  {
    EscapeConcat(plain, Repeat(dashes));
    EscapePlain(plain);
    EscapeDashes(dashes);
  }

  lemma EscapeParts(plain: string, dashes: nat, more: string)
    requires forall i :: 0 <= i < |plain| ==> plain[i] != '-'
    ensures Escape(plain + Repeat(dashes) + more) == plain + Repeat(2 * dashes) + Escape(more)
  {
    EscapeConcat(plain + Repeat(dashes), more);
    EscapeRun(plain, dashes);
  }

  lemma PrintedRun(plain: string, d: nat, rest: string)
    requires forall i :: 0 <= i < |plain| ==> plain[i] != '-'
    requires d > 0 && (rest != [] ==> rest[0] != '-')
    ensures TakeVg(plain + Repeat(d) + rest) ==
            (if d % 2 == 1 then (plain + Repeat(d / 2), rest)
             else (plain + Repeat(d / 2) + TakeVg(rest).0, TakeVg(rest).1))
  {
    hide TakeVg, Repeat;
    var s := plain + Repeat(d) + rest;
    RunAt(s, |plain|, d);
    TakeVgStep([], s);
    assert s[..|plain|] == plain && s[|plain|..][d..] == rest;
    assert [] + plain + Repeat(d / 2) == plain + Repeat(d / 2) && [] + TakeVg(s).0 == TakeVg(s).0;
  }

  /** The last run of the group name swallows the separator and the volume's leading dashes. */
  lemma PrintedLast(plain: string, k: nat, lv: string)
    requires forall i :: 0 <= i < |plain| ==> plain[i] != '-'
    ensures Print(plain + Repeat(k), lv) ==
            plain + Repeat(2 * k + 1 + 2 * Dashes(lv)) + Escape(lv[Dashes(lv)..])
  {
    var j := Dashes(lv);
    DashFacts(lv);
    EscapeParts(plain, k, []);
    EscapeParts([], j, lv[j..]);
    assert plain + Repeat(k) + [] == plain + Repeat(k);
    assert [] + Repeat(j) + lv[j..] == lv;
    hide Escape;
    var e := Escape(lv[j..]);
    assert plain + Repeat(2 * k) + [] + "-" + ([] + Repeat(2 * j) + e) == plain + Repeat(2 * k + 1 + 2 * j) + e;
  }

  lemma EscapedStart(lv: string)
    ensures var e := Escape(lv[Dashes(lv)..]); e != [] ==> e[0] != '-'
  {
    DashFacts(lv);
  }

  lemma TakeVgOfLast(plain: string, k: nat, lv: string)
    requires forall i :: 0 <= i < |plain| ==> plain[i] != '-'
    ensures TakeVg(Print(plain + Repeat(k), lv)) == (plain + Repeat(k) + Repeat(Dashes(lv)), Escape(lv[Dashes(lv)..]))
  {
    hide TakeVg, Dashes, Escape, Print;
    var j := Dashes(lv);
    PrintedLast(plain, k, lv);
    EscapedStart(lv);
    PrintedRun(plain, 2 * k + 1 + 2 * j, Escape(lv[j..]));
    assert plain + Repeat(k + j) == plain + Repeat(k) + Repeat(j);
  }

  lemma PrintConcat(a: string, b: string, lv: string)
    ensures Print(a + b, lv) == Escape(a) + Print(b, lv)
  {
    EscapeConcat(a, b);
    hide Escape;
    Associative(Escape(a), Escape(b), "-");
    Associative(Escape(a), Escape(b) + "-", Escape(lv));
  }

  lemma TakeVgOfMore(plain: string, k: nat, more: string, lv: string)
    requires forall i :: 0 <= i < |plain| ==> plain[i] != '-'
    requires k > 0 && more != [] && more[0] != '-'
    ensures var rest := TakeVg(Print(more, lv));
            TakeVg(Print(plain + Repeat(k) + more, lv)) == (plain + Repeat(k) + rest.0, rest.1)
  {
    PrintedStart(more, lv);
    PrintConcat(plain + Repeat(k), more, lv);
    hide TakeVg, Escape, Print, Repeat;
    EscapeRun(plain, k);
    PrintedRun(plain, 2 * k, Print(more, lv));
  }

  /** A printed name, for any two names at all: leading dashes of the volume move to the group. */
  lemma {:induction false} TakeVgOfPrinted(vg: string, lv: string)
    ensures TakeVg(Print(vg, lv)) == (vg + Repeat(Dashes(lv)), Escape(lv[Dashes(lv)..]))
    decreases |vg|
  {
    var n := NonDash(vg);
    var k := Dashes(vg[n..]);
    var plain, more := vg[..n], vg[n + k..];
    RunFacts(vg);
    DashFacts(vg[n..]);
    assert vg == plain + Repeat(k) + more;
    hide TakeVg, NonDash, Dashes, Escape, Print;
    if more == [] {
      assert vg == plain + Repeat(k);
      TakeVgOfLast(plain, k, lv);
    } else {
      assert more[0] == vg[n..][k];
      TakeVgOfMore(plain, k, more, lv);
      TakeVgOfPrinted(more, lv);
      Associative(plain + Repeat(k), more, Repeat(Dashes(lv)));
    }
  }

  lemma PrintedStart(vg: string, lv: string)
    requires vg != [] && vg[0] != '-'
    ensures Print(vg, lv)[0] != '-'
  {}

  /** What the parser makes of any printed name. */
  lemma ParseOfPrinted(vg: string, lv: string)
    ensures var group, volume := vg + Repeat(Dashes(lv)), lv[Dashes(lv)..];
            Parse(Print(vg, lv)) ==
              if group == [] || volume == [] then Failure(InvalidIdentifier) else Success(LvIdent(group, volume))
  {
    TakeVgOfPrinted(vg, lv);
    CollapseEscape(lv[Dashes(lv)..]);
  }

  /** Parsing gives the names back exactly when neither is empty and the volume does not start with a dash. */
  lemma RoundTripIff(vg: string, lv: string)
    ensures Parse(Print(vg, lv)) == Success(LvIdent(vg, lv)) <==> vg != [] && lv != [] && lv[0] != '-'
  {
    ParseOfPrinted(vg, lv);
    assert |vg + Repeat(Dashes(lv))| == |vg| + Dashes(lv);
    if Dashes(lv) == 0 {
      assert lv[0..] == lv && vg + Repeat(0) == vg;
    }
  }

  /** Two pairs of names share a device-mapper name exactly when they agree after moving the leading dashes. */
  lemma PrintCollidesIff(vg: string, lv: string, vg': string, lv': string)
    ensures Print(vg, lv) == Print(vg', lv') <==>
            vg + Repeat(Dashes(lv)) == vg' + Repeat(Dashes(lv')) && lv[Dashes(lv)..] == lv'[Dashes(lv')..]
  {
    TakeVgOfPrinted(vg, lv);
    TakeVgOfPrinted(vg', lv');
    CollapseEscape(lv[Dashes(lv)..]);
    CollapseEscape(lv'[Dashes(lv')..]);
    PrintMovesDashes(vg, lv);
    PrintMovesDashes(vg', lv');
  }

  lemma EscapedStartsWithDashes(lv: string)
    ensures Escape(lv) == Repeat(2 * Dashes(lv)) + Escape(lv[Dashes(lv)..])
  {
    hide Escape;
    var j := Dashes(lv);
    DashFacts(lv);
    EscapeParts([], j, lv[j..]);
    assert [] + Repeat(j) + lv[j..] == lv;
    assert [] + Repeat(2 * j) == Repeat(2 * j);
  }

  lemma DashCommutes(n: nat)
    ensures "-" + Repeat(n) == Repeat(n) + "-"
  {}

  lemma PrintMovesDashes(vg: string, lv: string)
    ensures Print(vg, lv) == Print(vg + Repeat(Dashes(lv)), lv[Dashes(lv)..])
  {
    hide Escape;
    var j := Dashes(lv);
    var d := Repeat(2 * j);
    EscapedStartsWithDashes(lv);
    EscapeConcat(vg, Repeat(j));
    EscapeDashes(j);
    DashCommutes(2 * j);
    Associative(Escape(vg) + "-", d, Escape(lv[j..]));
    Associative(Escape(vg), "-", d);
    Associative(Escape(vg), d, "-");
  }
}
