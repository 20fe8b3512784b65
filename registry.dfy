/**
 * The PID registry: the file `/tmp/ebay_driver_pids` that `build` writes
 * after a successful start and `teardown` reads back.  It holds three `u32`
 * process ids as decimal lines, in the order geckodriver, Xvfb, x11vnc.
 */
module PidRegistry {
  import opened Wrappers

  /** Rust's `u32`, the type of `Child::id()`. */
  newtype u32 = x: int | 0 <= x < 0x1_0000_0000

  const U32Bound: int := 0x1_0000_0000

  /** The three processes `build` starts, named as the teardown log names them. */
  datatype Proc = Geckodriver | Xvfb | X11vnc

  /** The order in which the registry lists the processes. */
  const RegistryOrder: seq<Proc> := [Geckodriver, Xvfb, X11vnc]

  datatype Pids = Pids(driver: u32, xvfb: u32, x11vnc: u32)

  /** The id `p` records for `proc`. */
  function PidOf(p: Pids, proc: Proc): u32 {
    match proc
    case Geckodriver => p.driver
    case Xvfb => p.xvfb
    case X11vnc => p.x11vnc
  }

  /** Why reading the registry failed: the file is missing, or the entry for `proc` is not a `u32`. */
  datatype RegistryError = RegistryNotFound | InvalidPid(proc: Proc)

  // ---------------------------------------------------------------------------
  // Decimal text of unsigned integers (`Display` and `FromStr` for `u32`)
  // ---------------------------------------------------------------------------

  predicate IsDigit(c: char) {
    '0' <= c <= '9'
  }

  predicate AllDigits(s: string) {
    forall i :: 0 <= i < |s| ==> IsDigit(s[i])
  }

  function DigitValue(c: char): nat
    requires IsDigit(c)
  {
    (c as int) - ('0' as int)
  }

  function DigitChar(d: nat): (c: char)
    requires d < 10
    ensures IsDigit(c) && DigitValue(c) == d
  {
    (('0' as int) + d) as char
  }

  /** The value of a string of decimal digits, most significant first. */
  function DigitsValue(s: string): nat
    requires AllDigits(s)
  {
    if s == [] then 0 else 10 * DigitsValue(s[..|s| - 1]) + DigitValue(s[|s| - 1])
  }

  /**
   * `n` formatted with `{}`: decimal digits, no sign, and no leading zero
   * except in "0" itself.
   */
  function Decimal(n: nat): (s: string)
    ensures 1 <= |s| && AllDigits(s)
    ensures s[0] == '0' ==> n == 0 && s == "0"
  {
    if n < 10 then [DigitChar(n)] else Decimal(n / 10) + [DigitChar(n % 10)]
  }

  /**
   * `s.parse::<u32>()`: an optional single '+', then one or more ASCII
   * digits whose value fits in 32 bits.  Anything else, the empty string,
   * a lone sign, a '-' and whitespace included, is an error.
   */
  function ParseU32(s: string): (r: Option<u32>)
    ensures r.Some? ==> 1 <= |s| && (IsDigit(s[0]) || s[0] == '+')
    ensures r.Some? ==> forall i :: 0 < i < |s| ==> IsDigit(s[i])
    ensures r.Some? ==> IsDigit(s[|s| - 1])
    ensures r.Some? ==> r.value as int == DigitsValue(if s[0] == '+' then s[1..] else s)
  {
    var digits := if |s| > 0 && s[0] == '+' then s[1..] else s;
    if digits == [] || !AllDigits(digits) then None
    else
      var v := DigitsValue(digits);
      if v < U32Bound then Some(v as u32) else None
  }

  lemma {:induction false} DecimalValue(n: nat)
    ensures DigitsValue(Decimal(n)) == n
  {
    if n >= 10 {
      var s := Decimal(n);
      assert s[..|s| - 1] == Decimal(n / 10);
      DecimalValue(n / 10);
    }
  }

  /** Parsing what `{}` printed gives the number back. */
  lemma ParseDecimal(n: u32)
    ensures ParseU32(Decimal(n as nat)) == Some(n)
  {
    DecimalValue(n as nat);
  }

  /** A decimal number above 2^32 - 1 is rejected, not wrapped. */
  lemma ParseRejectsOverflow(n: nat)
    requires n >= U32Bound
    ensures ParseU32(Decimal(n)) == None
  {
    DecimalValue(n);
  }

  /** A leading '+' is accepted and changes nothing; a leading '-' is rejected. */
  lemma ParseSign(n: u32)
    ensures ParseU32("+" + Decimal(n as nat)) == Some(n)
    ensures ParseU32("-" + Decimal(n as nat)) == None
  {
    var plus := "+" + Decimal(n as nat);
    assert plus[1..] == Decimal(n as nat);
    DecimalValue(n as nat);
  }

  // ---------------------------------------------------------------------------
  // `str::lines`
  // ---------------------------------------------------------------------------

  /** The index of the first '\n' in `s`, or |s| when there is none. */
  function LineEnd(s: string): (k: nat)
    ensures k <= |s|
    ensures k < |s| ==> s[k] == '\n'
    ensures forall i :: 0 <= i < k ==> s[i] != '\n'
  {
    if s == [] || s[0] == '\n' then 0 else 1 + LineEnd(s[1..])
  }

  /** Drops one '\r' that ended a line terminated by "\r\n". */
  function StripCr(line: string): string {
    if |line| > 0 && line[|line| - 1] == '\r' then line[..|line| - 1] else line
  }

  /**
   * `s.lines()`: the pieces of `s` between '\n's, each without its '\n' and
   * without one '\r' just before it.  A '\n' at the very end does not start
   * an empty last line, and a last line with no '\n' is kept as it is.
   */
  function Lines(s: string): (ls: seq<string>)
    ensures ls == [] <==> s == []
    ensures forall i :: 0 <= i < |ls| ==> '\n' !in ls[i]
    decreases |s|
  {
    if s == [] then []
    else
      var k := LineEnd(s);
      if k == |s| then [s] else [StripCr(s[..k])] + Lines(s[k + 1..])
  }

  /** A line ended by '\n' comes out of `lines()` intact, ahead of the lines after it. */
  lemma LinesOfTerminated(line: string, rest: string)
    requires '\n' !in line
    requires line == [] || line[|line| - 1] != '\r'
    ensures Lines(line + "\n" + rest) == [line] + Lines(rest)
  {
    var s := line + "\n" + rest;
    assert s[|line|] == '\n';
    assert LineEnd(s) == |line|;
    assert s[..|line|] == line;
    assert s[|line| + 1..] == rest;
  }

  /** Two lines, each ended by '\n', split back into those two lines. */
  lemma TwoTerminatedLines(a: string, b: string)
    requires '\n' !in a && (a == [] || a[|a| - 1] != '\r')
    requires '\n' !in b && (b == [] || b[|b| - 1] != '\r')
    ensures Lines(a + "\n" + b + "\n") == [a, b]
  {
    assert a + "\n" + b + "\n" == a + "\n" + (b + "\n" + []);
    LinesOfTerminated(a, b + "\n" + []);
    LinesOfTerminated(b, []);
  }

  /** Three lines, each ended by '\n', split back into those three lines. */
  lemma ThreeTerminatedLines(a: string, b: string, c: string)
    requires '\n' !in a && (a == [] || a[|a| - 1] != '\r')
    requires '\n' !in b && (b == [] || b[|b| - 1] != '\r')
    requires '\n' !in c && (c == [] || c[|c| - 1] != '\r')
    ensures Lines(a + "\n" + b + "\n" + c + "\n") == [a, b, c]
  {
    Regroup(a, b, c);
    TwoTerminatedLines(b, c);
    LinesOfTerminated(a, b + "\n" + c + "\n");
  }

  /** Three terminated lines, regrouped as the first line ahead of the other two. */
  lemma Regroup(a: string, b: string, c: string)
    ensures a + "\n" + b + "\n" + c + "\n" == a + "\n" + (b + "\n" + c + "\n")
  {
  }

  /** Text ending in '\n' finds its first '\n' where it did before anything was appended. */
  lemma {:induction false} LineEndAppend(s: string, extra: string)
    requires LineEnd(s) < |s|
    ensures LineEnd(s + extra) == LineEnd(s)
    decreases |s|
  {
    if s[0] != '\n' {
      assert (s + extra)[1..] == s[1..] + extra;
      LineEndAppend(s[1..], extra);
    }
  }

  /**
   * Text whose last character is '\n' ends its last line there: whatever
   * is appended to it starts new lines of its own.
   */
  lemma {:induction false} LinesAppend(s: string, extra: string)
    requires s != [] && s[|s| - 1] == '\n'
    ensures Lines(s + extra) == Lines(s) + Lines(extra)
    decreases |s|
  {
    var k := LineEnd(s);
    assert k < |s|;
    LineEndAppend(s, extra);
    assert (s + extra)[..k] == s[..k];
    assert (s + extra)[k + 1..] == s[k + 1..] + extra;
    if k + 1 < |s| {
      LinesAppend(s[k + 1..], extra);
    } else {
      assert s[k + 1..] == [];
    }
  }

  /** A string of digits is a line that `lines()` leaves intact. */
  lemma DigitLine(s: string)
    requires AllDigits(s)
    ensures '\n' !in s && (s == [] || s[|s| - 1] != '\r')
  {
  }

  // ---------------------------------------------------------------------------
  // The registry file
  // ---------------------------------------------------------------------------

  /**
   * `format!("{}\n{}\n{}\n", driver.id(), xvfb.id(), x11vnc.id())`: the
   * three decimal ids, each on a line of its own, in registry order.
   */
  function FormatRegistry(p: Pids): (s: string)
    ensures Lines(s) == [Decimal(p.driver as nat), Decimal(p.xvfb as nat), Decimal(p.x11vnc as nat)]
    ensures s[|s| - 1] == '\n'
  {
    var d, x, v := Decimal(p.driver as nat), Decimal(p.xvfb as nat), Decimal(p.x11vnc as nat);
    DigitLine(d);
    DigitLine(x);
    DigitLine(v);
    ThreeTerminatedLines(d, x, v);
    d + "\n" + x + "\n" + v + "\n"
  }

  /**
   * `lines.next().unwrap_or("0")` for the i-th call of `next`: the i-th
   * line, or "0" (which parses as the id 0) once the lines have run out.
   */
  function Entry(ls: seq<string>, i: nat): (e: string)
    ensures i < |ls| ==> e == ls[i]
    ensures i >= |ls| ==> ParseU32(e) == Some(0)
  {
    if i < |ls| then ls[i] else ParseDecimal(0); "0"
  }

  /** The i-th registry entry, parsed as a `u32`. */
  function ParsedEntry(content: string, i: nat): Option<u32> {
    ParseU32(Entry(Lines(content), i))
  }

  /**
   * What `teardown` reads from the registry text: the first three lines,
   * a missing one read as "0", parsed in order; the first that does not
   * parse ends the reading with an error naming its process.  Lines after
   * the third are never looked at.
   */
  function ReadRegistry(content: string): (r: Result<Pids, RegistryError>)
    ensures r.Success? <==>
      ParsedEntry(content, 0).Some? && ParsedEntry(content, 1).Some? && ParsedEntry(content, 2).Some?
    ensures r.Success? ==>
      && ParsedEntry(content, 0) == Some(r.value.driver)
      && ParsedEntry(content, 1) == Some(r.value.xvfb)
      && ParsedEntry(content, 2) == Some(r.value.x11vnc)
    ensures r.Failure? ==>
      && r.error.InvalidPid?
      && var k := if r.error.proc == Geckodriver then 0 else if r.error.proc == Xvfb then 1 else 2;
         && ParsedEntry(content, k).None?
         && forall i :: 0 <= i < k ==> ParsedEntry(content, i).Some?
  {
    match ParsedEntry(content, 0)
    case None => Failure(InvalidPid(Geckodriver))
    case Some(driver) =>
      match ParsedEntry(content, 1)
      case None => Failure(InvalidPid(Xvfb))
      case Some(xvfb) =>
        match ParsedEntry(content, 2)
        case None => Failure(InvalidPid(X11vnc))
        case Some(x11vnc) => Success(Pids(driver, xvfb, x11vnc))
  }

  /** Round trip: reading back what `build` wrote gives the same ids in the same order. */
  lemma RegistryRoundTrip(p: Pids)
    ensures ReadRegistry(FormatRegistry(p)) == Success(p)
  {
    ParseDecimal(p.driver);
    ParseDecimal(p.xvfb);
    ParseDecimal(p.x11vnc);
  }

  /** Whatever follows the three lines `build` wrote is never read. */
  lemma ExtraLinesIgnored(p: Pids, extra: string)
    ensures ReadRegistry(FormatRegistry(p) + extra) == Success(p)
  {
    LinesAppend(FormatRegistry(p), extra);
    ParseDecimal(p.driver);
    ParseDecimal(p.xvfb);
    ParseDecimal(p.x11vnc);
  }

  /** An empty registry reads as three zero ids. */
  lemma EmptyRegistryReadsZero()
    ensures ReadRegistry("") == Success(Pids(0, 0, 0))
  {
  }

  /** A registry with only the geckodriver line reads the two missing entries as 0. */
  lemma OneLineRegistry(driver: u32)
    ensures ReadRegistry(Decimal(driver as nat) + "\n") == Success(Pids(driver, 0, 0))
  {
    var d := Decimal(driver as nat);
    assert Lines(d + "\n") == [d] by {
      assert d + "\n" == d + "\n" + [];
      LinesOfTerminated(d, []);
    }
    ParseDecimal(0);
    ParseDecimal(driver);
    assert ParsedEntry(d + "\n", 0) == Some(driver);
    assert ParsedEntry(d + "\n", 1) == Some(0) && ParsedEntry(d + "\n", 2) == Some(0);
  }

  /** A registry with two lines reads the missing x11vnc entry as 0. */
  lemma TwoLineRegistry(driver: u32, xvfb: u32)
    ensures ReadRegistry(Decimal(driver as nat) + "\n" + Decimal(xvfb as nat) + "\n") == Success(Pids(driver, xvfb, 0))
  {
    var d, x := Decimal(driver as nat), Decimal(xvfb as nat);
    var content := d + "\n" + x + "\n";
    DigitLine(d);
    DigitLine(x);
    TwoTerminatedLines(d, x);
    ParseDecimal(0);
    ParseDecimal(driver);
    ParseDecimal(xvfb);
    assert ParsedEntry(content, 0) == Some(driver) && ParsedEntry(content, 1) == Some(xvfb);
    assert ParsedEntry(content, 2) == Some(0);
  }

  /** Decimal text of a three-digit number, digit by digit. */
  lemma DecimalOfThreeDigits(n: nat, a: nat, b: nat, c: nat)
    requires 1 <= a < 10 && b < 10 && c < 10 && n == 100 * a + 10 * b + c
    ensures Decimal(n) == [DigitChar(a), DigitChar(b), DigitChar(c)]
  {
    assert Decimal(a) == [DigitChar(a)];
    assert n / 10 / 10 == a && (n / 10) % 10 == b && n % 10 == c;
  }

  /** The registry text "101\n202\n303\n" holds geckodriver 101, Xvfb 202 and x11vnc 303. */
  lemma ReadsExampleRegistry()
    ensures ReadRegistry("101\n202\n303\n") == Success(Pids(101, 202, 303))
  {
    DecimalOfThreeDigits(101, 1, 0, 1);
    DecimalOfThreeDigits(202, 2, 0, 2);
    DecimalOfThreeDigits(303, 3, 0, 3);
    assert FormatRegistry(Pids(101, 202, 303)) == "101\n202\n303\n";
    RegistryRoundTrip(Pids(101, 202, 303));
  }

  /**
   * A malformed middle line is fatal for the whole registry, although the
   * lines around it are valid ids: there is no per-entry tolerance.
   */
  lemma BadMiddleLineRejected(driver: u32, bad: string, x11vnc: u32)
    requires '\n' !in bad && (bad == [] || bad[|bad| - 1] != '\r')
    requires ParseU32(bad) == None
    ensures ReadRegistry(Decimal(driver as nat) + "\n" + bad + "\n" + Decimal(x11vnc as nat) + "\n")
         == Failure(InvalidPid(Xvfb))
  {
    var d, v := Decimal(driver as nat), Decimal(x11vnc as nat);
    var content := d + "\n" + bad + "\n" + v + "\n";
    DigitLine(d);
    DigitLine(v);
    ThreeTerminatedLines(d, bad, v);
    ParseDecimal(driver);
    assert ParsedEntry(content, 0) == Some(driver) && ParsedEntry(content, 1) == None;
  }

  /**
   * Such a malformed line: any line holding a character other than a digit,
   * except one '+' in front.  Letters, spaces, a '-' and a second sign all
   * make the id invalid.
   */
  lemma NonDigitRejected(s: string, i: nat)
    requires i < |s| && !IsDigit(s[i]) && (i > 0 || s[i] != '+')
    ensures ParseU32(s) == None
  {
  }

  /** A sign with no digits after it is not an id either. */
  lemma LoneSignRejected()
    ensures ParseU32("+") == None && ParseU32("-") == None
  {
  }

  /** An empty line is not a valid id: a blank first line makes the read fail at geckodriver. */
  lemma EmptyLineRejected(rest: string)
    ensures ReadRegistry("\n" + rest) == Failure(InvalidPid(Geckodriver))
  {
  }
}
