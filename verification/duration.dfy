/** `parseDuration`: the milliseconds a Flux interval such as "1h30m" stands
    for. The source runs the global regular expression `(\d+)([hms])` over
    the text and adds value × unit for every match; text between matches
    contributes nothing. */
module Duration {
  import opened Wrappers
  import opened Strings

  predicate IsUnit(c: char) { c == 'h' || c == 'm' || c == 's' }

  /** Milliseconds in one hour, minute or second. */
  function UnitMs(u: char): nat
    requires IsUnit(u)
  {
    if u == 'h' then 60 * 60 * 1000
    else if u == 'm' then 60 * 1000
    else 1000
  }

  predicate AllDigits(d: string) {
    forall i :: 0 <= i < |d| ==> IsDigit(d[i])
  }

  /** Length of the run of digits `s` starts with. */
  function DigitRun(s: string): (k: nat)
    ensures k <= |s|
    ensures AllDigits(s[..k])
    ensures k < |s| ==> !IsDigit(s[k])
    decreases |s|
  {
    if |s| == 0 || !IsDigit(s[0]) then 0 else 1 + DigitRun(s[1..])
  }

  function DigitValue(c: char): nat
    requires IsDigit(c)
  {
    c as int - '0' as int
  }

  /** `parseInt(d, 10)` of a string of decimal digits. */
  function DecimalValue(d: string): nat
    requires AllDigits(d)
    decreases |d|
  {
    if |d| == 0 then 0
    else DecimalValue(d[..|d| - 1]) * 10 + DigitValue(d[|d| - 1])
  }

  /** The decimal digits of `n`, without leading zeros. */
  function ShowNat(n: nat): (s: string)
    ensures |s| >= 1 && AllDigits(s)
    decreases n
  {
    var last := ('0' as int + n % 10) as char;
    if n < 10 then [last] else ShowNat(n / 10) + [last]
  }

  /** Reading back the digits of a number gives the number. */
  lemma {:induction false} DecimalValueOfShowNat(n: nat)
    ensures DecimalValue(ShowNat(n)) == n
    decreases n
  {
    var s := ShowNat(n);
    if n >= 10 {
      assert s[..|s| - 1] == ShowNat(n / 10);
      DecimalValueOfShowNat(n / 10);
    }
  }

  /** The pattern `(\d+)([hms])` matches at the start of `s`. Greedy `\d+`
      takes the whole digit run; giving digits back cannot help, since the
      character after a shorter run is a digit and not a unit. */
  predicate StartsMatch(s: string) {
    var k := DigitRun(s);
    0 < k < |s| && IsUnit(s[k])
  }

  /** What one match `<digits><unit>` adds to the total. */
  function TokenMs(digits: string, unit: char): nat
    requires AllDigits(digits) && IsUnit(unit)
  {
    DecimalValue(digits) * UnitMs(unit)
  }

  /** The reference meaning: scanning left to right, a match contributes
      its value times its unit and scanning resumes after it; elsewhere the
      scan moves on by one character. */
  function DurationMs(s: string): nat
    decreases |s|
  {
    if |s| == 0 then 0
    else if StartsMatch(s) then
      var k := DigitRun(s);
      TokenMs(s[..k], s[k]) + DurationMs(s[k + 1..])
    else DurationMs(s[1..])
  }

  /** One result of `regex.exec`: where it starts, the digits of group 1
      and the unit of group 2. */
  datatype RegexMatch = RegexMatch(index: nat, digits: string, unit: char) {
    function End(): nat { index + |digits| + 1 }

    /** What the match adds to the total. */
    function Ms(): nat
      requires AllDigits(digits) && IsUnit(unit)
    {
      TokenMs(digits, unit)
    }
  }

  /** `regex.exec(duration)` with the expression's `lastIndex` at
      `lastIndex`: a match of `(\d+)([hms])` at or after it, with the whole
      digit run in group 1. */
  function Exec(s: string, lastIndex: nat): (m: Option<RegexMatch>)
    requires lastIndex <= |s|
    ensures m.Some? ==>
      && lastIndex <= m.value.index
      && m.value.End() <= |s|
      && |m.value.digits| > 0 && AllDigits(m.value.digits) && IsUnit(m.value.unit)
      && s[m.value.index..m.value.End()] == m.value.digits + [m.value.unit]
      && StartsMatch(s[m.value.index..])
    decreases |s| - lastIndex
  {
    if lastIndex == |s| then None
    else if StartsMatch(s[lastIndex..]) then
      var t := s[lastIndex..];
      var k := DigitRun(t);
      assert s[lastIndex..lastIndex + k + 1] == t[..k] + [t[k]];
      Some(RegexMatch(lastIndex, t[..k], t[k]))
    else
      Exec(s, lastIndex + 1)
  }

  /** The match `Exec` finds is the leftmost one: no match starts between
      `lastIndex` and it, and none at all when it finds nothing. */
  lemma {:induction false} ExecLeftmost(s: string, lastIndex: nat)
    requires lastIndex <= |s|
    ensures Exec(s, lastIndex).None? ==> forall i :: lastIndex <= i < |s| ==> !StartsMatch(s[i..])
    ensures Exec(s, lastIndex).Some? ==> forall i :: lastIndex <= i < Exec(s, lastIndex).value.index ==> !StartsMatch(s[i..])
    decreases |s| - lastIndex
  {
    if lastIndex < |s| && !StartsMatch(s[lastIndex..]) {
      ExecLeftmost(s, lastIndex + 1);
    }
  }

  /** What `Exec` finds accounts for the reading of the text from
      `lastIndex`: nothing found means it reads as 0; a match contributes
      its value plus the reading of the text after it. */
  lemma {:induction false} ExecReading(s: string, lastIndex: nat)
    requires lastIndex <= |s|
    ensures Exec(s, lastIndex).None? ==> DurationMs(s[lastIndex..]) == 0
    ensures Exec(s, lastIndex).Some? ==>
      var m := Exec(s, lastIndex).value;
      DurationMs(s[lastIndex..]) == m.Ms() + DurationMs(s[m.End()..])
    decreases |s| - lastIndex
  {
    if lastIndex == |s| {
      assert s[lastIndex..] == [];
    } else if StartsMatch(s[lastIndex..]) {
      ExecHere(s, lastIndex);
    } else {
      ExecSkip(s, lastIndex);
      ExecReading(s, lastIndex + 1);
    }
  }

  /** A match right at `j` is the one `Exec` returns, and it accounts for
      the reading from `j`. */
  lemma ExecHere(s: string, j: nat)
    requires j < |s| && StartsMatch(s[j..])
    ensures Exec(s, j).Some? && Exec(s, j).value.index == j
    ensures DurationMs(s[j..]) == Exec(s, j).value.Ms() + DurationMs(s[Exec(s, j).value.End()..])
  {
    var t := s[j..];
    var k := DigitRun(t);
    assert Exec(s, j) == Some(RegexMatch(j, t[..k], t[k]));
    assert t[k + 1..] == s[j + k + 1..];
  }

  /** Without a match at `j`, `Exec` and the reading both move on by one. */
  lemma ExecSkip(s: string, j: nat)
    requires j < |s| && !StartsMatch(s[j..])
    ensures Exec(s, j) == Exec(s, j + 1)
    ensures DurationMs(s[j..]) == DurationMs(s[j + 1..])
  {
    assert s[j..][1..] == s[j + 1..];
  }

  /** `parseDuration`: the `while ((match = regex.exec(duration)) !== null)`
      loop. It returns the reference meaning of the text. */
  method ParseDuration(duration: string) returns (totalMilliseconds: nat)
    ensures totalMilliseconds == DurationMs(duration)
  {
    totalMilliseconds := 0;
    var lastIndex := 0;
    assert duration[lastIndex..] == duration;
    var m := Exec(duration, lastIndex);
    while m.Some?
      invariant lastIndex <= |duration|
      invariant m == Exec(duration, lastIndex)
      invariant totalMilliseconds + DurationMs(duration[lastIndex..]) == DurationMs(duration)
      decreases |duration| - lastIndex
    {
      ExecReading(duration, lastIndex);
      var found := m.value;
      var value := DecimalValue(found.digits);
      ghost var before := totalMilliseconds;
      ghost var rest := DurationMs(duration[found.End()..]);
      ghost var contribution := found.Ms();
      assert DurationMs(duration[lastIndex..]) == contribution + rest;
      match found.unit {
        case 'h' =>
          assert contribution == value * 3600000;
          totalMilliseconds := totalMilliseconds + value * 60 * 60 * 1000;
        case 'm' =>
          assert contribution == value * 60000;
          totalMilliseconds := totalMilliseconds + value * 60 * 1000;
        case 's' =>
          assert contribution == value * 1000;
          totalMilliseconds := totalMilliseconds + value * 1000;
      }
      assert totalMilliseconds == before + contribution;
      lastIndex := found.End();
      m := Exec(duration, lastIndex);
    }
    ExecReading(duration, lastIndex);
  }

  /** Text without digits contributes nothing; in particular "" gives 0. */
  lemma {:induction false} DurationWithoutDigits(s: string)
    requires forall i :: 0 <= i < |s| ==> !IsDigit(s[i])
    ensures DurationMs(s) == 0
    decreases |s|
  {
    if |s| > 0 {
      assert !StartsMatch(s);
      DurationWithoutDigits(s[1..]);
    }
  }

  lemma {:induction false} DigitRunOfToken(d: string, u: char, rest: string)
    requires AllDigits(d) && !IsDigit(u)
    ensures DigitRun(d + [u] + rest) == |d|
    decreases |d|
  {
    if |d| > 0 {
      assert (d + [u] + rest)[1..] == d[1..] + [u] + rest;
      DigitRunOfToken(d[1..], u, rest);
    }
  }

  /** A leading match `<digits><unit>` contributes value × unit, and the
      text after it is read on its own. */
  lemma DurationOfToken(d: string, u: char, rest: string)
    requires |d| > 0 && AllDigits(d) && IsUnit(u)
    ensures DurationMs(d + [u] + rest) == DecimalValue(d) * UnitMs(u) + DurationMs(rest)
  {
    var s := d + [u] + rest;
    DigitRunOfToken(d, u, rest);
    assert s[..|d|] == d;
    assert s[|d| + 1..] == rest;
  }

  lemma {:induction false} DigitRunOfPrefix(a: string, b: string)
    requires |a| > 0 && !IsDigit(a[|a| - 1])
    ensures DigitRun(a + b) == DigitRun(a) < |a|
    decreases |a|
  {
    if IsDigit(a[0]) {
      assert (a + b)[1..] == a[1..] + b;
      DigitRunOfPrefix(a[1..], b);
    }
  }

  /** Cutting the text after a non-digit splits the total: no match spans
      the cut. */
  lemma {:induction false} DurationAppend(a: string, b: string)
    requires |a| == 0 || !IsDigit(a[|a| - 1])
    ensures DurationMs(a + b) == DurationMs(a) + DurationMs(b)
    decreases |a|
  {
    if |a| > 0 {
      var s := a + b;
      DigitRunOfPrefix(a, b);
      var k := DigitRun(a);
      if StartsMatch(a) {
        assert s[..k] == a[..k];
        assert s[k + 1..] == a[k + 1..] + b;
        DurationAppend(a[k + 1..], b);
      } else {
        assert s[1..] == a[1..] + b;
        DurationAppend(a[1..], b);
      }
    } else {
      assert a + b == b;
    }
  }

  /** An interval written as a list of amounts with units. */
  datatype Token = Token(amount: nat, unit: char)

  predicate ValidTokens(toks: seq<Token>) {
    forall i :: 0 <= i < |toks| ==> IsUnit(toks[i].unit)
  }

  /** The text of an interval: each amount in decimal followed by its unit. */
  function Format(toks: seq<Token>): string
    decreases |toks|
  {
    if |toks| == 0 then "" else ShowNat(toks[0].amount) + [toks[0].unit] + Format(toks[1..])
  }

  /** Sum of amount × unit over the tokens. */
  function TotalMs(toks: seq<Token>): nat
    requires ValidTokens(toks)
    decreases |toks|
  {
    if |toks| == 0 then 0 else toks[0].amount * UnitMs(toks[0].unit) + TotalMs(toks[1..])
  }

  /** Parsing a formatted interval gives the sum over its matches. */
  lemma {:induction false} DurationOfFormat(toks: seq<Token>)
    requires ValidTokens(toks)
    ensures DurationMs(Format(toks)) == TotalMs(toks)
    decreases |toks|
  {
    if |toks| > 0 {
      DurationOfFormat(toks[1..]);
      DurationOfToken(ShowNat(toks[0].amount), toks[0].unit, Format(toks[1..]));
      DecimalValueOfShowNat(toks[0].amount);
    }
  }

  /** "1h30m" is 5 400 000 ms. */
  lemma OneHourThirty()
    ensures DurationMs("1h30m") == 5400000
  {
    var toks := [Token(1, 'h'), Token(30, 'm')];
    assert Format(toks) == "1h30m" by {
      assert ShowNat(1) == "1";
      assert ShowNat(30) == "30";
      assert Format(toks[1..]) == "30m";
    }
    DurationOfFormat(toks);
  }
}
